/** The loops of `battery_status_patch`, proved to find the fields that the text of the table declares. */
module EmbeddedControlScan {
  import opened Options
  import opened Sequences
  import opened Text
  import opened TextScan
  import opened EmbeddedControl
  import opened EmbeddedControlText

  method ProcessRegion(table: string, start: nat, reading: Reading) returns (name: Option<string>, next: nat)
    ensures Region(name, next) == RegionFrom(table, start, reading)
  {
    var k := Find(table, KEYWORD, start);
    if k.None? { return None, start + 1; }
    KeywordInside(table, k.value);
    var line, from, end := ExtractLine(table, k.value, reading.blank);
    var parts := Split(line, '(');
    if |parts| < 2 { return None, start + 1; }
    name, next := Some(Strip(Split(parts[1], ',')[0], reading.blank)), end;
  }

  method ProcessDefinition(table: string, name: string, start: nat, reading: Reading)
    returns (fields: seq<EcField>, next: nat)
    ensures Definition(fields, next) == DefinitionFrom(table, name, start, reading)
  {
    var k := Find(table, Pattern(name), start);
    if k.None? { return [], |table|; }
    assert |Pattern(name)| > 0;
    var line, from, end := ExtractLine(table, k.value, reading.blank);
    var block := ExtractBlockContent(table, end);
    fields, next := reading.fieldsIn(block), end;
  }

  method CollectRegion(table: string, name: string, start: nat, reading: Reading) returns (fields: seq<EcField>)
    ensures fields == RegionFields(table, name, start, reading)
    ensures AfterBreak(table, start) ==> forall f :: f in fields <==> Gathered(table, name, start, reading, f)
  {
    hide Find, Pattern, Gathered, AfterBreak, DefinitionFrom;
    fields := [];
    var current, done := start, false;
    while !done
      invariant RegionFields(table, name, start, reading) ==
        fields + if done then [] else RegionFields(table, name, current, reading)
      decreases if done then 0 else 1, |table| - current
    {
      var found, next := ProcessDefinition(table, name, current, reading);
      if found == [] || next <= current {
        done := true;
      } else {
        fields := fields + found;
        current := next;
        if Find(table, Pattern(name), current).None? { done := true; }
      }
    }
    if AfterBreak(table, start) {
      forall f
        ensures f in fields <==> Gathered(table, name, start, reading, f)
      {
        RegionFieldsIff(table, name, start, reading, f);
      }
    }
  }

  predicate Wide(fields: seq<EcField>) {
    exists k :: 0 <= k < |fields| && fields[k].size > 8
  }

  lemma WideIff(table: string, reading: Reading)
    requires reading.BreaksAreBlank()
    ensures Wide(AllFields(table, 0, reading)) <==> exists f :: DeclaredOnText(table, reading, f) && f.size > 8
  {
    hide AllFields, Declared, DeclaredOnText;
    var all := AllFields(table, 0, reading);
    if Wide(all) {
      var k :| 0 <= k < |all| && all[k].size > 8;
      AllFieldsIff(table, reading, all[k]);
      DeclaredIff(table, reading, all[k]);
    }
    if f :| DeclaredOnText(table, reading, f) && f.size > 8 {
      DeclaredIff(table, reading, f);
      AllFieldsIff(table, reading, f);
      var k :| 0 <= k < |all| && all[k] == f;
    }
  }

  /** One turn of the outer loop. */
  method ScanRegion(table: string, start: nat, reading: Reading) returns (fields: seq<EcField>, next: nat)
    requires reading.BreaksAreBlank() && Find(table, KEYWORD, start).Some?
    ensures start < next && AllFields(table, start, reading) == fields + AllFields(table, next, reading)
    ensures start < |table|
  {
    RegionProgress(table, start, reading);
    KeywordInside(table, Find(table, KEYWORD, start).value);
    var name;
    name, next := ProcessRegion(table, start, reading);
    fields := [];
    if name.Some? && name.value != "" { fields := CollectRegion(table, name.value, next, reading); }
  }

  /** Whether some declared field is wider than eight bits. */
  method BatteryStatusPatch(table: string, reading: Reading) returns (needed: bool)
    requires reading.BreaksAreBlank()
    ensures needed <==> exists f :: DeclaredOnText(table, reading, f) && f.size > 8
  {
    var start, all := 0, [];
    while Find(table, KEYWORD, start).Some?
      invariant AllFields(table, 0, reading) == all + AllFields(table, start, reading)
      decreases |table| - start
    {
      var fields, next := ScanRegion(table, start, reading);
      Assoc(all, fields, AllFields(table, next, reading));
      all, start := all + fields, next;
    }
    assert all + [] == all;
    needed := Wide(all);
    WideIff(table, reading);
  }
}
