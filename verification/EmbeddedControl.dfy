/** `battery_status_patch`: the fields of all EmbeddedControl regions of a table, scanned with a moving index. */
module EmbeddedControl {
  import opened Options
  import opened Sequences
  import opened Text
  import opened TextScan

  const KEYWORD := "EmbeddedControl"

  datatype EcField = EcField(name: string, size: int)

  /**
   * What the scan takes as given: which characters are blank, and the fields that the lines of a block declare.
   */
  datatype Reading = Reading(blank: char -> bool, fieldsIn: string -> seq<EcField>) {
    ghost predicate BreaksAreBlank() { blank('\n') }
  }

  datatype Region = Region(name: Option<string>, next: nat)

  function LineAt(table: string, index: nat, reading: Reading): string
    requires index < |table|
  {
    var start := LineStart(table, index);
    Strip(table[start..LineEnd(table, start)], reading.blank)
  }

  function EndOfLineAt(table: string, index: nat): (r: nat)
    requires index < |table|
    ensures r <= |table|
  {
    LineEnd(table, LineStart(table, index))
  }

  /** The text between the first parenthesis and the next comma; `None` where the source's indexing fails. */
  function RegionName(line: string, reading: Reading): Option<string> {
    var parts := Split(line, '(');
    if |parts| < 2 then None else Some(Strip(Split(parts[1], ',')[0], reading.blank))
  }

  lemma KeywordInside(table: string, k: nat)
    requires OccursAt(table, KEYWORD, k)
    ensures k + |KEYWORD| <= |table| && OneLine(table, k, k + |KEYWORD|) && |KEYWORD| == 15
  {
    forall j | k <= j < k + |KEYWORD|
      ensures table[j] != '\n'
    {
      assert table[j] == KEYWORD[j - k];
    }
  }

  /** `process_embedded_control_region`. */
  function RegionFrom(table: string, start: nat, reading: Reading): Region {
    match Find(table, KEYWORD, start)
    case None => Region(None, start + 1)
    case Some(k) =>
      KeywordInside(table, k);
      match RegionName(LineAt(table, k, reading), reading)
      case None => Region(None, start + 1)
      case Some(name) => Region(Some(name), EndOfLineAt(table, k))
  }

  datatype Definition = Definition(fields: seq<EcField>, next: nat)

  function Pattern(name: string): string { "Field (" + name }

  /** `process_field_definition`. */
  function DefinitionFrom(table: string, name: string, start: nat, reading: Reading): (r: Definition)
    ensures r.next <= |table|
  {
    match Find(table, Pattern(name), start)
    case None => Definition([], |table|)
    case Some(k) =>
      assert |Pattern(name)| > 0;
      var next := EndOfLineAt(table, k);
      Definition(reading.fieldsIn(Block(table, next)), next)
  }

  // ------------------------------------------------------------------ progress

  lemma {:induction false} StripOfBlank(s: string, blank: char -> bool)
    requires forall c :: c in s ==> blank(c)
    ensures Strip(s, blank) == ""
  {
    if s != "" { StripOfBlank(s[1..], blank); }
  }

  lemma LineEndAtBreak(text: string)
    requires text != "" && text[0] == '\n'
    ensures LineEnd(text, 0) == 1
  { }

  lemma MissedLineHasNoName(table: string, k: nat, reading: Reading)
    requires k < |table| && table[k] != '\n' && MissesBreak(table, k) && reading.BreaksAreBlank()
    ensures RegionName(LineAt(table, k, reading), reading) == None
  {
    LineStartIsZeroIff(table, k);
    LineEndAtBreak(table);
    assert table[0..1] == "\n";
    StripOfBlank("\n", reading.blank);
    assert Split("", '(') == [""];
  }

  /** A region that was recognised ends past its keyword: a missed leading line break leaves an empty line. */
  lemma RegionLinePassesKeyword(table: string, k: nat, reading: Reading)
    requires OccursAt(table, KEYWORD, k) && k < |table| && reading.BreaksAreBlank()
    requires RegionName(LineAt(table, k, reading), reading).Some?
    ensures !MissesBreak(table, k) && k + |KEYWORD| <= EndOfLineAt(table, k)
  {
    KeywordInside(table, k);
    if MissesBreak(table, k) {
      MissedLineHasNoName(table, k, reading);
    } else {
      LineStartIs(table, k);
      var start := LineStart(table, k);
      assert OneLine(table, start, k + |KEYWORD|);
      LineEndReaches(table, start, k + |KEYWORD|);
    }
  }

  /** Every step of the outer scan moves forward; a recognised region moves past its keyword. */
  lemma RegionProgress(table: string, start: nat, reading: Reading)
    requires reading.BreaksAreBlank()
    ensures
      var k, r := Find(table, KEYWORD, start), RegionFrom(table, start, reading);
      start < r.next &&
      (r.name.Some? ==> k.Some? && k.value + |KEYWORD| <= r.next <= |table|) &&
      (r.name.None? ==> r.next == start + 1)
  {
    var k := Find(table, KEYWORD, start);
    if k.Some? {
      KeywordInside(table, k.value);
      if RegionName(LineAt(table, k.value, reading), reading).Some? {
        RegionLinePassesKeyword(table, k.value, reading);
      }
    }
  }

  /** A field definition that was found ends past its keyword exactly when no leading line break was missed. */
  lemma DefinitionPassesKeywordIff(table: string, name: string, start: nat, reading: Reading)
    requires Find(table, Pattern(name), start).Some?
    ensures
      var k := Find(table, Pattern(name), start).value;
      k < |table| &&
      (DefinitionFrom(table, name, start, reading).next > k <==> !MissesBreak(table, k))
  {
    var k := Find(table, Pattern(name), start).value;
    assert Pattern(name)[0] == 'F';
    assert table[k..k + |Pattern(name)|][0] == table[k];
    LineEndsPastIff(table, k);
  }

  // ------------------------------------------------------------------ the scan as functions

  /** The fields of the region `name`, definition by definition. */
  function RegionFields(table: string, name: string, current: nat, reading: Reading): seq<EcField>
    decreases |table| - current
  {
    var d := DefinitionFrom(table, name, current, reading);
    if d.fields == [] || d.next <= current then []
    else if Find(table, Pattern(name), d.next).None? then d.fields
    else d.fields + RegionFields(table, name, d.next, reading)
  }

  function OwnFields(table: string, r: Region, reading: Reading): seq<EcField> {
    if r.name.None? || r.name.value == "" then [] else RegionFields(table, r.name.value, r.next, reading)
  }

  function AllFields(table: string, start: nat, reading: Reading): seq<EcField>
    requires reading.BreaksAreBlank()
    decreases |table| - start
  {
    if Find(table, KEYWORD, start).None? then []
    else
      var r := RegionFrom(table, start, reading);
      RegionProgress(table, start, reading);
      KeywordInside(table, Find(table, KEYWORD, start).value);
      OwnFields(table, r, reading) + AllFields(table, r.next, reading)
  }

  // ------------------------------------------------------------------ no region is skipped or repeated

  /** The recognised regions in the order of the scan. */
  function Visited(table: string, start: nat, reading: Reading): seq<Region>
    requires reading.BreaksAreBlank()
    decreases |table| - start
  {
    if Find(table, KEYWORD, start).None? then []
    else
      var r := RegionFrom(table, start, reading);
      RegionProgress(table, start, reading);
      KeywordInside(table, Find(table, KEYWORD, start).value);
      (if r.name.None? then [] else [r]) + Visited(table, r.next, reading)
  }

  function FieldsOf(regions: seq<Region>, own: Region -> seq<EcField>): seq<EcField> {
    if regions == [] then [] else own(regions[0]) + FieldsOf(regions[1..], own)
  }

  lemma FieldsOfMore(r: Region, rest: seq<Region>, own: Region -> seq<EcField>)
    ensures FieldsOf([r] + rest, own) == own(r) + FieldsOf(rest, own)
  {
    assert ([r] + rest)[1..] == rest;
  }

  /** What the scan gathers are the fields of the regions it visits. */
  lemma {:induction false} AllFieldsAreVisited(table: string, start: nat, reading: Reading, own: Region -> seq<EcField>)
    requires reading.BreaksAreBlank() && forall r: Region {:trigger own(r)} :: own(r) == OwnFields(table, r, reading)
    ensures AllFields(table, start, reading) == FieldsOf(Visited(table, start, reading), own)
    decreases |table| - start
  {
    if Find(table, KEYWORD, start).Some? {
      RegionProgress(table, start, reading);
      KeywordInside(table, Find(table, KEYWORD, start).value);
      var r := RegionFrom(table, start, reading);
      var rest := Visited(table, r.next, reading);
      AllFieldsAreVisited(table, r.next, reading, own);
      FieldsOfMore(r, rest, own);
      assert own(r) == OwnFields(table, r, reading);
      VisitedMore(table, start, reading, r, rest);
    }
  }

  lemma VisitedMore(table: string, start: nat, reading: Reading, r: Region, rest: seq<Region>)
    requires reading.BreaksAreBlank() && Find(table, KEYWORD, start).Some?
    requires r == RegionFrom(table, start, reading) && rest == Visited(table, r.next, reading)
    ensures Visited(table, start, reading) == if r.name.None? then rest else [r] + rest
  { }

  /** Each recognised region is visited once, in order. */
  lemma {:induction false} VisitedIncreases(table: string, start: nat, reading: Reading)
    requires reading.BreaksAreBlank()
    ensures forall a :: 0 <= a < |Visited(table, start, reading)| ==> start < Visited(table, start, reading)[a].next
    ensures forall a, b :: 0 <= a < b < |Visited(table, start, reading)| ==>
              Visited(table, start, reading)[a].next < Visited(table, start, reading)[b].next
    decreases |table| - start
  {
    if Find(table, KEYWORD, start).Some? {
      RegionProgress(table, start, reading);
      KeywordInside(table, Find(table, KEYWORD, start).value);
      VisitedIncreases(table, RegionFrom(table, start, reading).next, reading);
    }
  }

  /** Two places of one line, the line having been recognised at the first. */
  lemma SameRegionLine(table: string, a: nat, b: nat, reading: Reading)
    requires OccursAt(table, KEYWORD, a) && a <= b < |table| && reading.BreaksAreBlank()
    requires RegionName(LineAt(table, a, reading), reading).Some? && b < EndOfLineAt(table, a) && table[b] != '\n'
    ensures LineStart(table, b) == LineStart(table, a)
  {
    RegionLinePassesKeyword(table, a, reading);
    KeywordInside(table, a);
    RestOfLine(table, a, b);
  }

  lemma RestOfLine(table: string, a: nat, b: nat)
    requires a <= b < |table| && table[a] != '\n' && table[b] != '\n' && b < EndOfLineAt(table, a)
    ensures LineStart(table, b) == LineStart(table, a)
  {
    LineStartIs(table, a);
    LineEndIsOneLine(table, LineStart(table, a), b);
    SameLine(table, a, b);
  }

  /** The keyword at `k` stands in a line with a region name. */
  predicate RegionAt(table: string, k: nat, reading: Reading, r: Region) {
    && k < |table| && OccursAt(table, KEYWORD, k)
    && r.name.Some? && r.name == RegionName(LineAt(table, k, reading), reading) && r.next == EndOfLineAt(table, k)
  }

  /** Every line that holds the keyword and has a region name is visited. */
  lemma {:induction false} NoRegionSkipped(table: string, start: nat, reading: Reading, k: nat, region: Region)
    requires reading.BreaksAreBlank() && start <= k && RegionAt(table, k, reading, region)
    ensures region in Visited(table, start, reading)
    decreases |table| - start
  {
    var first := Find(table, KEYWORD, start).value;
    var r := RegionFrom(table, start, reading);
    RegionProgress(table, start, reading);
    KeywordInside(table, first);
    KeywordInside(table, k);
    if r.name.Some? && k < r.next {
      SameRegionLine(table, first, k, reading);
    } else {
      NoRegionSkipped(table, r.next, reading, k, region);
    }
  }

  /** And nothing else is visited. */
  lemma {:induction false} VisitedIsRegion(table: string, start: nat, reading: Reading, region: Region) returns (k: nat)
    requires reading.BreaksAreBlank() && region in Visited(table, start, reading)
    ensures start <= k && RegionAt(table, k, reading, region)
    decreases |table| - start
  {
    k := Find(table, KEYWORD, start).value;
    var r := RegionFrom(table, start, reading);
    RegionProgress(table, start, reading);
    KeywordInside(table, k);
    if r.name.None? || region != r { k := VisitedIsRegion(table, r.next, reading, region); }
  }

  // ------------------------------------------------------------------ which definitions a region gathers

  /** The fields declared in the block after the line of index `k`. */
  function FieldsAt(table: string, k: nat, reading: Reading): seq<EcField>
    requires k < |table|
  {
    reading.fieldsIn(Block(table, EndOfLineAt(table, k)))
  }

  predicate DefinitionAt(table: string, name: string, k: nat) { k < |table| && OccursAt(table, Pattern(name), k) }

  /** Reference definition: a definition from `current` on declares `f`, and none before it is without fields. */
  ghost predicate Gathered(table: string, name: string, current: nat, reading: Reading, f: EcField) {
    exists k: nat {:trigger DefinitionAt(table, name, k)} ::
      && current <= k && DefinitionAt(table, name, k) && f in FieldsAt(table, k, reading)
      && forall j: nat {:trigger DefinitionAt(table, name, j)} ::
           current <= j <= k && DefinitionAt(table, name, j) ==> FieldsAt(table, j, reading) != []
  }

  /** The index stands at the start of a line other than the first two characters, or at the end. */
  predicate AfterBreak(table: string, index: nat) {
    index >= |table| || (index >= 2 && table[index - 1] == '\n')
  }

  lemma DefinitionStarts(table: string, name: string, k: nat)
    requires OccursAt(table, Pattern(name), k)
    ensures k < |table| && table[k] == 'F'
  {
    assert Pattern(name)[0] == 'F';
    assert table[k..k + |Pattern(name)|][0] == table[k];
  }

  /** The next definition: its line ends past it, after a line break, and holds the same fields wherever it is cut. */
  lemma NextDefinition(table: string, name: string, current: nat, reading: Reading) returns (k: nat)
    requires AfterBreak(table, current) && Find(table, Pattern(name), current).Some?
    ensures current <= k && DefinitionAt(table, name, k)
    ensures forall j: nat {:trigger DefinitionAt(table, name, j)} ::
      current <= j && DefinitionAt(table, name, j) ==> k <= j
    ensures DefinitionFrom(table, name, current, reading) ==
      Definition(FieldsAt(table, k, reading), EndOfLineAt(table, k))
    ensures k < EndOfLineAt(table, k) && AfterBreak(table, EndOfLineAt(table, k))
    ensures forall j: nat {:trigger DefinitionAt(table, name, j)} ::
      k <= j < EndOfLineAt(table, k) && DefinitionAt(table, name, j) ==>
      FieldsAt(table, j, reading) == FieldsAt(table, k, reading)
  {
    k := Find(table, Pattern(name), current).value;
    DefinitionStarts(table, name, k);
    assert table[current - 1] == '\n' && 1 <= current - 1 < k + 1;
    LineEndsPastIff(table, k);
    var end := EndOfLineAt(table, k);
    if end < |table| { LineEndsAtBreak(table, LineStart(table, k)); }
    forall j: nat | k <= j < end && DefinitionAt(table, name, j)
      ensures FieldsAt(table, j, reading) == FieldsAt(table, k, reading)
    {
      DefinitionStarts(table, name, j);
      RestOfLine(table, k, j);
    }
  }

  /** The inner loop gathers all definitions from `current` on, up to the first one without fields. */
  lemma {:induction false} RegionFieldsIff(table: string, name: string, current: nat, reading: Reading, f: EcField)
    requires AfterBreak(table, current)
    ensures f in RegionFields(table, name, current, reading) <==> Gathered(table, name, current, reading, f)
    decreases |table| - current
  {
    if Find(table, Pattern(name), current).Some? {
      var k := NextDefinition(table, name, current, reading);
      var next := EndOfLineAt(table, k);
      if FieldsAt(table, k, reading) != [] {
        RegionFieldsIff(table, name, next, reading, f);
        GatheredStep(table, name, current, reading, f, k);
        RegionFieldsStep(table, name, current, reading);
      }
    }
  }

  /** Whether there is a next definition or not, the region goes on from the end of the line. */
  lemma RegionFieldsStep(table: string, name: string, current: nat, reading: Reading)
    requires
      var d := DefinitionFrom(table, name, current, reading);
      d.fields != [] && current < d.next
    ensures
      var d := DefinitionFrom(table, name, current, reading);
      RegionFields(table, name, current, reading) == d.fields + RegionFields(table, name, d.next, reading)
  {
    var d := DefinitionFrom(table, name, current, reading);
    if Find(table, Pattern(name), d.next).None? { assert RegionFields(table, name, d.next, reading) == []; }
  }

  lemma GatheredStep(table: string, name: string, current: nat, reading: Reading, f: EcField, k: nat)
    requires DefinitionAt(table, name, k) && current <= k < EndOfLineAt(table, k) && FieldsAt(table, k, reading) != []
    requires forall j: nat {:trigger DefinitionAt(table, name, j)} ::
      current <= j && DefinitionAt(table, name, j) ==> k <= j
    requires forall j: nat {:trigger DefinitionAt(table, name, j)} ::
      k <= j < EndOfLineAt(table, k) && DefinitionAt(table, name, j) ==>
      FieldsAt(table, j, reading) == FieldsAt(table, k, reading)
    ensures Gathered(table, name, current, reading, f) <==>
      f in FieldsAt(table, k, reading) || Gathered(table, name, EndOfLineAt(table, k), reading, f)
  { }

  /** Reference definition: some recognised, named region gathers the field. */
  ghost predicate Declared(table: string, reading: Reading, f: EcField) {
    exists k: nat, r: Region {:trigger RegionAt(table, k, reading, r)} ::
      RegionAt(table, k, reading, r) && r.name.value != "" && Gathered(table, r.name.value, r.next, reading, f)
  }

  lemma RegionEndsAfterBreak(table: string, k: nat, reading: Reading, r: Region)
    requires RegionAt(table, k, reading, r) && reading.BreaksAreBlank()
    ensures AfterBreak(table, r.next)
  {
    RegionLinePassesKeyword(table, k, reading);
    KeywordInside(table, k);
    if r.next < |table| { LineEndsAtBreak(table, LineStart(table, k)); }
  }

  lemma {:induction false} InFieldsOf(regions: seq<Region>, own: Region -> seq<EcField>, f: EcField)
    ensures f in FieldsOf(regions, own) <==> exists r :: r in regions && f in own(r)
  {
    if regions != [] {
      InFieldsOf(regions[1..], own, f);
      assert regions == [regions[0]] + regions[1..];
    }
  }

  /** What a recognised region contributes. */
  lemma OwnFieldsIff(table: string, k: nat, reading: Reading, r: Region, f: EcField)
    requires RegionAt(table, k, reading, r) && reading.BreaksAreBlank()
    ensures f in OwnFields(table, r, reading) <==>
      r.name.value != "" && Gathered(table, r.name.value, r.next, reading, f)
  {
    RegionEndsAfterBreak(table, k, reading, r);
    RegionFieldsIff(table, r.name.value, r.next, reading, f);
  }

  lemma VisitedDeclares(table: string, reading: Reading, r: Region, f: EcField)
    requires reading.BreaksAreBlank() && r in Visited(table, 0, reading) && f in OwnFields(table, r, reading)
    ensures Declared(table, reading, f)
  {
    var k := VisitedIsRegion(table, 0, reading, r);
    OwnFieldsIff(table, k, reading, r, f);
  }

  lemma DeclaredIsVisited(table: string, reading: Reading, f: EcField) returns (r: Region)
    requires reading.BreaksAreBlank() && Declared(table, reading, f)
    ensures r in Visited(table, 0, reading) && f in OwnFields(table, r, reading)
  {
    var k: nat;
    k, r :| RegionAt(table, k, reading, r) && r.name.value != "" && Gathered(table, r.name.value, r.next, reading, f);
    OwnFieldsIff(table, k, reading, r, f);
    NoRegionSkipped(table, 0, reading, k, r);
  }

  /** The scan gathers exactly the declared fields. */
  lemma AllFieldsIff(table: string, reading: Reading, f: EcField)
    requires reading.BreaksAreBlank()
    ensures f in AllFields(table, 0, reading) <==> Declared(table, reading, f)
  {
    var regions, own := Visited(table, 0, reading), r => OwnFields(table, r, reading);
    AllFieldsAreVisited(table, 0, reading, own);
    InFieldsOf(regions, own, f);
    if f in FieldsOf(regions, own) {
      var r :| r in regions && f in own(r);
      VisitedDeclares(table, reading, r, f);
    }
    if Declared(table, reading, f) {
      var r := DeclaredIsVisited(table, reading, f);
      assert f in own(r);
    }
  }
}
