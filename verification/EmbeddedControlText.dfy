/**
 * What `battery_status_patch` looks for, told on the text of the table alone: the lines with the keyword, the name
 * between the parenthesis and the comma, and the blocks after the `Field (` lines of that name.
 */
module EmbeddedControlText {
  import opened Options
  import opened Sequences
  import opened Text
  import opened TextScan
  import opened EmbeddedControl

  // ------------------------------------------------------------------ lines

  /** The line around index `k`, from `a` up to `e`, with its line break if it has one. */
  ghost predicate LineSpan(table: string, k: nat, a: nat, e: nat) {
    && a <= k < e <= |table| && (a == 0 || table[a - 1] == '\n')
    && OneLine(table, a, e - 1) && (e == |table| || table[e - 1] == '\n')
  }

  lemma LineSpanExists(table: string, k: nat)
    requires k < |table| && table[k] != '\n' && !MissesBreak(table, k)
    ensures LineSpan(table, k, LineStart(table, k), EndOfLineAt(table, k))
  {
    var a, e := LineStart(table, k), EndOfLineAt(table, k);
    LineStartIs(table, k);
    LineStartIsZeroIff(table, k);
    LineEndsPastIff(table, k);
    LineEndIsOneLine(table, a, e - 1);
    if e < |table| { LineEndsAtBreak(table, a); }
  }

  lemma LineSpanIsUnique(table: string, k: nat, a: nat, e: nat, b: nat, d: nat)
    requires k < |table| && table[k] != '\n' && LineSpan(table, k, a, e) && LineSpan(table, k, b, d)
    ensures a == b && e == d
  { }

  /** The source misses a line break at the very start of the table, when no other precedes the index. */
  lemma LineSpanMisses(table: string, k: nat, a: nat, e: nat)
    requires k < |table| && table[k] != '\n' && LineSpan(table, k, a, e)
    ensures MissesBreak(table, k) <==> a == 1
  { }

  // ------------------------------------------------------------------ the name of a region

  /** Up to the first `c`, or to the end. */
  lemma {:induction false} FirstPart(s: string, c: char)
    ensures
      var p := Split(s, c)[0];
      |p| <= |s| && s[..|p|] == p && c !in p && (|p| < |s| ==> s[|p|] == c)
  {
    if s != "" {
      FirstPart(s[1..], c);
      SplitStep(s, c, s[1..]);
      var p := Split(s[1..], c)[0];
      if s[0] != c { assert s[..|p| + 1] == [s[0]] + s[1..][..|p|]; }
    }
  }

  lemma SamePrefix(s: string, c: char, p: string, q: string)
    requires |p| <= |s| && s[..|p|] == p && c !in p && (|p| < |s| ==> s[|p|] == c)
    requires |q| <= |s| && s[..|q|] == q && c !in q && (|q| < |s| ==> s[|q|] == c)
    ensures p == q
  {
    assert forall k :: 0 <= k < |p| ==> s[k] == p[k] && s[k] in p;
    assert forall k :: 0 <= k < |q| ==> s[k] == q[k] && s[k] in q;
  }

  lemma FirstPartIs(s: string, c: char, p: string)
    requires |p| <= |s| && s[..|p|] == p && c !in p && (|p| < |s| ==> s[|p|] == c)
    ensures Split(s, c)[0] == p
  {
    FirstPart(s, c);
    var q := Split(s, c)[0];
    SamePrefix(s, c, p, q);
  }

  /** After the first parenthesis stands `raw`, up to the next comma or parenthesis or the end. */
  ghost predicate NameIn(line: string, head: string, raw: string, tail: string) {
    && line == head + "(" + raw + tail && '(' !in head && '(' !in raw && ',' !in raw
    && (tail != "" ==> tail[0] == '(' || tail[0] == ',')
  }

  lemma NameParts(line: string, head: string, raw: string, tail: string)
    requires NameIn(line, head, raw, tail)
    ensures |Split(line, '(')| >= 2 && Split(Split(line, '(')[1], ',')[0] == raw
  {
    hide Split;
    var rest := raw + tail;
    assert line == head + ['('] + rest;
    SplitConcat(head, '(', rest);
    SplitWithout(head, '(');
    var part := Split(rest, '(')[0];
    assert Split(line, '(')[1] == part;
    FirstPart(rest, '(');
    if tail == "" || tail[0] == '(' {
      assert rest[..|raw|] == raw && (|raw| < |rest| ==> rest[|raw|] == tail[0]);
      FirstPartIs(rest, '(', raw);
      FirstPartIs(raw, ',', raw);
    } else {
      assert rest[|raw|] == ',' && rest[..|raw|] == raw;
      assert forall k :: 0 <= k < |raw| ==> rest[k] == raw[k] && rest[k] in raw;
      assert part[..|raw|] == raw && part[|raw|] == ',';
      FirstPartIs(part, ',', raw);
    }
  }

  lemma NamePartsExist(line: string) returns (head: string, raw: string, tail: string)
    requires |Split(line, '(')| >= 2
    ensures NameIn(line, head, raw, tail)
  {
    hide Split;
    SplitSize(line, '(');
    FirstPart(line, '(');
    head := Split(line, '(')[0];
    assert line[..|head|] == head;
    var rest := line[|head| + 1..];
    assert line == head + ['('] + rest;
    var part := Split(rest, '(')[0];
    FirstPart(rest, '(');
    raw := Split(part, ',')[0];
    FirstPart(part, ',');
    tail := rest[|raw|..];
    assert rest == raw + tail by { assert rest[..|raw|] == part[..|raw|]; }
    if tail != "" {
      assert tail[0] == rest[|raw|];
      if |raw| < |part| { assert rest[|raw|] == part[|raw|]; }
    }
  }

  /** The name of a region: `raw` without the blanks at its ends. Only a line without parenthesis has none. */
  lemma RegionNameIff(line: string, reading: Reading, name: string)
    ensures RegionName(line, reading) == Some(name) <==>
      exists head, raw, tail :: NameIn(line, head, raw, tail) && IsStripped(raw, reading.blank, name)
    ensures RegionName(line, reading) == None <==> '(' !in line
  {
    SplitSize(line, '(');
    if RegionName(line, reading) == Some(name) {
      var head, raw, tail := NamePartsExist(line);
      NameParts(line, head, raw, tail);
      StripIff(raw, reading.blank, name);
    }
    if head, raw, tail :| NameIn(line, head, raw, tail) && IsStripped(raw, reading.blank, name) {
      NameParts(line, head, raw, tail);
      StripIff(raw, reading.blank, name);
    }
  }

  // ------------------------------------------------------------------ regions, definitions and fields

  /**
   * A region called `name`: the keyword stands at `k` in the line from `a` to `e`, and the line without blanks at its
   * ends shows the name. The line after a line break that begins the table is passed over.
   */
  ghost predicate RegionOnText(table: string, blank: char -> bool, k: nat, a: nat, e: nat, name: string) {
    && OccursAt(table, "EmbeddedControl", k) && LineSpan(table, k, a, e) && a != 1
    && exists line, head, raw, tail {:trigger NameIn(line, head, raw, tail)} ::
         IsStripped(table[a..e], blank, line) && NameIn(line, head, raw, tail) && IsStripped(raw, blank, name)
  }

  /** `b` is the shortest balanced brace block from the first brace after `e`, or nothing if there is none. */
  ghost predicate BlockAfter(table: string, e: nat, b: string) {
    if exists i: nat, j: nat :: IsBlock(table, e, i, j)
    then exists i: nat, j: nat :: IsBlock(table, e, i, j) && b == table[i..j]
    else b == ""
  }

  /** At `k` begins a field definition for the region, and `b` is the block after its line. */
  ghost predicate DefinitionOnText(table: string, name: string, k: nat, b: string) {
    OccursAt(table, "Field (" + name, k) &&
    exists a: nat, e: nat {:trigger LineSpan(table, k, a, e)} :: LineSpan(table, k, a, e) && BlockAfter(table, e, b)
  }

  /** A definition from `from` on declares `f`, and none before it is without fields. */
  ghost predicate GatheredOnText(table: string, name: string, from: nat, reading: Reading, f: EcField) {
    exists k: nat, b: string {:trigger DefinitionOnText(table, name, k, b)} ::
      && from <= k && DefinitionOnText(table, name, k, b) && f in reading.fieldsIn(b)
      && forall j: nat, c: string {:trigger DefinitionOnText(table, name, j, c)} ::
           from <= j <= k && DefinitionOnText(table, name, j, c) ==> reading.fieldsIn(c) != []
  }

  /** Some region with a name that is not empty gathers the field from the line after it on. */
  ghost predicate DeclaredOnText(table: string, reading: Reading, f: EcField) {
    exists k: nat, a: nat, e: nat, name: string {:trigger RegionOnText(table, reading.blank, k, a, e, name)} ::
      RegionOnText(table, reading.blank, k, a, e, name) && name != "" && GatheredOnText(table, name, e, reading, f)
  }

  // ------------------------------------------------------------------ what the scan takes for them

  lemma BlockAfterIff(table: string, e: nat, b: string)
    ensures BlockAfter(table, e, b) <==> b == Block(table, e)
  {
    BlockIsShortest(table, e);
    if i: nat, j: nat :| IsBlock(table, e, i, j) {
      assert Block(table, e) == table[i..j];
      if BlockAfter(table, e, b) {
        var m: nat, n: nat :| IsBlock(table, e, m, n) && b == table[m..n];
      }
    }
  }

  /** After the start of a line, a definition is one for the scan, with the same block. */
  lemma DefinitionIff(table: string, name: string, from: nat, k: nat, b: string)
    requires AfterBreak(table, from) && from <= k
    ensures DefinitionOnText(table, name, k, b) <==>
      DefinitionAt(table, name, k) && b == Block(table, EndOfLineAt(table, k))
  {
    if OccursAt(table, Pattern(name), k) {
      DefinitionStarts(table, name, k);
      assert !MissesBreak(table, k);
      LineSpanExists(table, k);
      var a, e := LineStart(table, k), EndOfLineAt(table, k);
      BlockAfterIff(table, e, b);
      if DefinitionOnText(table, name, k, b) {
        var c: nat, d: nat :| LineSpan(table, k, c, d) && BlockAfter(table, d, b);
        LineSpanIsUnique(table, k, a, e, c, d);
      }
    }
  }

  lemma GatheredIff(table: string, name: string, from: nat, reading: Reading, f: EcField)
    requires AfterBreak(table, from)
    ensures GatheredOnText(table, name, from, reading, f) <==> Gathered(table, name, from, reading, f)
  {
    forall k: nat, b: string | from <= k
      ensures DefinitionOnText(table, name, k, b) <==>
        DefinitionAt(table, name, k) && b == Block(table, EndOfLineAt(table, k))
    {
      DefinitionIff(table, name, from, k, b);
    }
    if Gathered(table, name, from, reading, f) {
      var k: nat :| from <= k && DefinitionAt(table, name, k) && f in FieldsAt(table, k, reading) &&
        forall j: nat {:trigger DefinitionAt(table, name, j)} ::
          from <= j <= k && DefinitionAt(table, name, j) ==> FieldsAt(table, j, reading) != [];
      assert DefinitionOnText(table, name, k, Block(table, EndOfLineAt(table, k)));
    }
    if GatheredOnText(table, name, from, reading, f) {
      var k: nat, b: string :| from <= k && DefinitionOnText(table, name, k, b) && f in reading.fieldsIn(b) &&
        forall j: nat, c: string {:trigger DefinitionOnText(table, name, j, c)} ::
          from <= j <= k && DefinitionOnText(table, name, j, c) ==> reading.fieldsIn(c) != [];
      forall j: nat | from <= j <= k && DefinitionAt(table, name, j)
        ensures FieldsAt(table, j, reading) != []
      {
        assert DefinitionOnText(table, name, j, Block(table, EndOfLineAt(table, j)));
      }
    }
  }

  /** A region is recognised exactly where the text shows one. */
  lemma RegionIff(table: string, reading: Reading, k: nat, a: nat, e: nat, name: string)
    requires reading.BreaksAreBlank()
    ensures RegionOnText(table, reading.blank, k, a, e, name) <==>
      RegionAt(table, k, reading, Region(Some(name), e)) && a == LineStart(table, k)
  {
    if OccursAt(table, KEYWORD, k) {
      KeywordInside(table, k);
      if RegionAt(table, k, reading, Region(Some(name), e)) && a == LineStart(table, k) {
        RegionLinePassesKeyword(table, k, reading);
        LineSpanExists(table, k);
        LineStartIs(table, k);
        var line := Strip(table[a..e], reading.blank);
        StripIff(table[a..e], reading.blank, line);
        RegionNameIff(line, reading, name);
      }
      if RegionOnText(table, reading.blank, k, a, e, name) {
        LineSpanMisses(table, k, a, e);
        LineSpanExists(table, k);
        LineSpanIsUnique(table, k, a, e, LineStart(table, k), EndOfLineAt(table, k));
        var line, head, raw, tail :|
          IsStripped(table[a..e], reading.blank, line) && NameIn(line, head, raw, tail) &&
          IsStripped(raw, reading.blank, name);
        StripIff(table[a..e], reading.blank, line);
        RegionNameIff(line, reading, name);
      }
    }
  }

  /** The scan declares exactly the fields that the text declares. */
  lemma DeclaredIff(table: string, reading: Reading, f: EcField)
    requires reading.BreaksAreBlank()
    ensures DeclaredOnText(table, reading, f) <==> Declared(table, reading, f)
  {
    if Declared(table, reading, f) {
      var k: nat, r: Region :|
        RegionAt(table, k, reading, r) && r.name.value != "" && Gathered(table, r.name.value, r.next, reading, f);
      assert r == Region(Some(r.name.value), r.next);
      RegionIff(table, reading, k, LineStart(table, k), r.next, r.name.value);
      RegionEndsAfterBreak(table, k, reading, r);
      GatheredIff(table, r.name.value, r.next, reading, f);
    }
    if DeclaredOnText(table, reading, f) {
      var k: nat, a: nat, e: nat, name: string :|
        RegionOnText(table, reading.blank, k, a, e, name) && name != "" && GatheredOnText(table, name, e, reading, f);
      RegionIff(table, reading, k, a, e, name);
      RegionEndsAfterBreak(table, k, reading, Region(Some(name), e));
      GatheredIff(table, name, e, reading, f);
    }
  }
}
