/** The order in which the validator lists what it finds: that of the data, and what is missing after what is there. */
module ReportOrder {
  import opened ReportRules
  import opened ReportProblems

  // ------------------------------------------------------------------ the order of the data

  /** `p` goes on from `path` with the step `s`. */
  predicate GoesOn(p: Path, path: Path, s: Step) {
    |path| < |p| && p[..|path|] == path && p[|path|] == s
  }

  /** In `d`, which stands at `path`, the place `p` comes before the place `q`: in an earlier entry or item. */
  ghost predicate PlaceBefore(d: Data, path: Path, p: Path, q: Path)
    decreases d
  {
    match d
    case Dict(entries) =>
      || (exists i: nat, j: nat {:trigger entries[i], entries[j]} :: i < j < |entries| &&
            GoesOn(p, path, Key(entries[i].key)) && GoesOn(q, path, Key(entries[j].key)))
      || (exists i: nat {:trigger entries[i]} ::
            i < |entries| && PlaceBefore(entries[i].value, path + [Key(entries[i].key)], p, q))
    case List(items) =>
      || (exists i: nat, j: nat {:trigger GoesOn(p, path, Index(i)), GoesOn(q, path, Index(j))} ::
            i < j < |items| && GoesOn(p, path, Index(i)) && GoesOn(q, path, Index(j)))
      || (exists i: nat {:trigger items[i]} :: i < |items| && PlaceBefore(items[i], path + [Index(i)], p, q))
    case Str(_) => false
    case Number(_) => false
    case Null => false
  }

  /** The place of the unknown entry itself. */
  function EntryPlace(w: Warning): Path { w.path + [Key(w.key)] }

  ghost predicate WarningBefore(d: Data, path: Path, w: Warning, v: Warning) {
    PlaceBefore(d, path, EntryPlace(w), EntryPlace(v))
  }

  /** A missing key comes after everything inside its dictionary, and after the missing keys before it in the schema. */
  ghost predicate ErrorBefore(d: Data, rule: Rule, path: Path, x: Problem, y: Problem) {
    || PlaceBefore(d, path, x.path, y.path)
    || (y.Missing? && |y.path| < |x.path| && x.path[..|y.path|] == y.path)
    || (x.Missing? && y.Missing? && x.path == y.path && exists e: Data, r: Rule ::
          Reaches(d, rule, path, e, r, x.path) && SchemaBefore(r.schema, x.key, y.key))
  }

  predicate SchemaBefore(schema: seq<Field>, key: string, other: string) {
    exists i, j :: 0 <= i < j < |schema| && schema[i].key == key && schema[j].key == other
  }

  ghost predicate WarningsOrdered(d: Data, path: Path, s: seq<Warning>) {
    forall a, b :: 0 <= a < b < |s| ==> WarningBefore(d, path, s[a], s[b])
  }

  ghost predicate ErrorsOrdered(d: Data, rule: Rule, path: Path, s: seq<Problem>) {
    forall a, b :: 0 <= a < b < |s| ==> ErrorBefore(d, rule, path, s[a], s[b])
  }

  // ------------------------------------------------------------------ places

  predicate Extends(p: Path, path: Path) { |path| <= |p| && p[..|path|] == path }

  lemma {:induction false} ReachesBelow(d: Data, rule: Rule, path: Path, e: Data, r: Rule, place: Path)
    requires Reaches(d, rule, path, e, r, place)
    ensures Extends(place, path)
    decreases d
  {
    if !(e == d && r == rule && place == path) {
      if d.Dict? {
        var k: nat, own: Rule :| k < |d.entries| && Applies(rule, d.entries[k].key, own) &&
          Reaches(d.entries[k].value, own, path + [Key(d.entries[k].key)], e, r, place);
        ReachesBelow(d.entries[k].value, own, path + [Key(d.entries[k].key)], e, r, place);
        ExtendsStep(place, path, Key(d.entries[k].key));
      } else {
        var k: nat :| k < |d.items| && Reaches(d.items[k], rule.itemRule.value, path + [Index(k)], e, r, place);
        ReachesBelow(d.items[k], rule.itemRule.value, path + [Index(k)], e, r, place);
        ExtendsStep(place, path, Index(k));
      }
    }
  }

  lemma ExtendsStep(p: Path, path: Path, s: Step)
    requires Extends(p, path + [s])
    ensures GoesOn(p, path, s) && Extends(p, path)
  {
    assert p[..|path|] == p[..|path| + 1][..|path|];
    assert p[|path|] == p[..|path| + 1][|path|];
  }

  /** What comes first inside an entry comes first in the dictionary. */
  lemma BeforeInEntry(d: Data, path: Path, k: nat)
    requires d.Dict? && k < |d.entries|
    ensures forall p, q {:trigger PlaceBefore(d, path, p, q)} ::
      PlaceBefore(d.entries[k].value, path + [Key(d.entries[k].key)], p, q) ==> PlaceBefore(d, path, p, q)
  { }

  lemma BeforeInItem(d: Data, path: Path, k: nat)
    requires d.List? && k < |d.items|
    ensures forall p, q {:trigger PlaceBefore(d, path, p, q)} ::
      PlaceBefore(d.items[k], path + [Index(k)], p, q) ==> PlaceBefore(d, path, p, q)
  { }

  lemma EntryBefore(d: Data, path: Path, k: nat, j: nat, p: Path, q: Path)
    requires d.Dict? && k < j < |d.entries|
    requires GoesOn(p, path, Key(d.entries[k].key)) && GoesOn(q, path, Key(d.entries[j].key))
    ensures PlaceBefore(d, path, p, q)
  { }

  lemma ItemBefore(d: Data, path: Path, k: nat, j: nat, p: Path, q: Path)
    requires d.List? && k < j < |d.items|
    requires Extends(p, path + [Index(k)]) && Extends(q, path + [Index(j)])
    ensures PlaceBefore(d, path, p, q)
  {
    ExtendsStep(p, path, Index(k));
    ExtendsStep(q, path, Index(j));
  }

  lemma WarningBelow(d: Data, rule: Rule, path: Path, w: Warning, matches: Matcher)
    requires w in Validate(d, rule, path, matches).warnings
    ensures Extends(EntryPlace(w), path)
  {
    WarningsIff(d, rule, path, w, matches);
    var e: Data, r: Rule :| Reaches(d, rule, path, e, r, w.path);
    ReachesBelow(d, rule, path, e, r, w.path);
    assert EntryPlace(w)[..|path|] == w.path[..|path|];
  }

  lemma ErrorBelow(d: Data, rule: Rule, path: Path, x: Problem, matches: Matcher)
    requires x in Validate(d, rule, path, matches).errors
    ensures Extends(x.path, path)
  {
    ErrorsIff(d, rule, path, x, matches);
    var e: Data, r: Rule :| Reaches(d, rule, path, e, r, x.path);
    ReachesBelow(d, rule, path, e, r, x.path);
  }

  // ------------------------------------------------------------------ the warnings

  lemma JoinWarnings(d: Data, path: Path, s: seq<Warning>, t: seq<Warning>)
    requires WarningsOrdered(d, path, s) && WarningsOrdered(d, path, t)
    requires forall w, v :: w in s && v in t ==> WarningBefore(d, path, w, v)
    ensures WarningsOrdered(d, path, s + t)
  {
    hide WarningBefore;
    forall a, b | 0 <= a < b < |s + t|
      ensures WarningBefore(d, path, (s + t)[a], (s + t)[b])
    {
      if b < |s| {
        assert WarningBefore(d, path, s[a], s[b]);
      } else if |s| <= a {
        assert WarningBefore(d, path, t[a - |s|], t[b - |s|]);
      } else {
        assert s[a] in s && t[b - |s|] in t;
      }
    }
  }

  /** A warning at or in entry `k` stands there. */
  lemma WarnedPlace(d: Data, k: nat, rule: Rule, path: Path, w: Warning, matches: Matcher)
    requires d.Dict? && k < |d.entries| && WarnedAt(d, k, rule, path, w, matches)
    ensures GoesOn(EntryPlace(w), path, Key(d.entries[k].key))
  {
    hide Validate;
    var e := d.entries[k];
    if RuleFor(rule, e.key).Some? {
      WarningBelow(e.value, RuleFor(rule, e.key).value, path + [Key(e.key)], w, matches);
      ExtendsStep(EntryPlace(w), path, Key(e.key));
    }
  }

  lemma LaterEntryWarns(d: Data, n: nat, rule: Rule, path: Path, w: Warning, v: Warning, matches: Matcher)
    requires d.Dict? && n < |d.entries| && w in ValidateEntries(d, n, rule, path, matches).warnings
    requires WarnedAt(d, n, rule, path, v, matches)
    ensures WarningBefore(d, path, w, v)
  {
    hide Validate, ValidateEntries, WarnedAt, PlaceBefore;
    EntryWarnings(d, n, rule, path, w, matches);
    var k: nat :| k < n && WarnedAt(d, k, rule, path, w, matches);
    WarnedPlace(d, k, rule, path, w, matches);
    WarnedPlace(d, n, rule, path, v, matches);
    EntryBefore(d, path, k, n, EntryPlace(w), EntryPlace(v));
  }

  lemma {:induction false} EntryWarningsOrdered(d: Data, n: nat, rule: Rule, path: Path, matches: Matcher)
    requires d.Dict? && n <= |d.entries|
    ensures WarningsOrdered(d, path, ValidateEntries(d, n, rule, path, matches).warnings)
    decreases d, 0, n
  {
    hide Validate, PlaceBefore;
    if n > 0 {
      var before := ValidateEntries(d, n - 1, rule, path, matches).warnings;
      var e := d.entries[n - 1];
      var own := RuleFor(rule, e.key);
      var added := if own.Some? then Validate(e.value, own.value, path + [Key(e.key)], matches).warnings
                   else if rule.schema != [] then [UnknownKey(path, e.key)] else [];
      EntryWarningsOrdered(d, n - 1, rule, path, matches);
      if own.Some? {
        WarningsInOrder(e.value, own.value, path + [Key(e.key)], matches);
        BeforeInEntry(d, path, n - 1);
      }
      forall w, v | w in before && v in added
        ensures WarningBefore(d, path, w, v)
      {
        LaterEntryWarns(d, n - 1, rule, path, w, v, matches);
      }
      JoinWarnings(d, path, before, added);
      assert ValidateEntries(d, n, rule, path, matches).warnings == before + added;
    }
  }

  lemma {:induction false} ItemWarningsOrdered(d: Data, n: nat, rule: Rule, path: Path, matches: Matcher)
    requires d.List? && n <= |d.items|
    ensures WarningsOrdered(d, path, ValidateItems(d, n, rule, path, matches).warnings)
    decreases d, 0, n
  {
    hide Validate, PlaceBefore;
    if n > 0 {
      var before := ValidateItems(d, n - 1, rule, path, matches).warnings;
      var added := Validate(d.items[n - 1], rule, path + [Index(n - 1)], matches).warnings;
      ItemWarningsOrdered(d, n - 1, rule, path, matches);
      WarningsInOrder(d.items[n - 1], rule, path + [Index(n - 1)], matches);
      BeforeInItem(d, path, n - 1);
      forall w, v | w in before && v in added
        ensures WarningBefore(d, path, w, v)
      {
        ItemWarnings(d, n - 1, rule, path, w, matches);
        var k: nat :| k < n - 1 && w in Validate(d.items[k], rule, path + [Index(k)], matches).warnings;
        WarningBelow(d.items[k], rule, path + [Index(k)], w, matches);
        WarningBelow(d.items[n - 1], rule, path + [Index(n - 1)], v, matches);
        ItemBefore(d, path, k, n - 1, EntryPlace(w), EntryPlace(v));
      }
      JoinWarnings(d, path, before, added);
    }
  }

  /** The warnings come in the order in which the unknown entries stand in the data. */
  lemma {:induction false} WarningsInOrder(d: Data, rule: Rule, path: Path, matches: Matcher)
    ensures WarningsOrdered(d, path, Validate(d, rule, path, matches).warnings)
    decreases d, 1, 0
  {
    if d.Dict? {
      EntryWarningsOrdered(d, |d.entries|, rule, path, matches);
    } else if d.List? && rule.itemRule.Some? {
      ItemWarningsOrdered(d, |d.items|, rule.itemRule.value, path, matches);
    }
  }

  // ------------------------------------------------------------------ the errors

  lemma JoinErrors(d: Data, rule: Rule, path: Path, s: seq<Problem>, t: seq<Problem>)
    requires ErrorsOrdered(d, rule, path, s) && ErrorsOrdered(d, rule, path, t)
    requires forall x, y :: x in s && y in t ==> ErrorBefore(d, rule, path, x, y)
    ensures ErrorsOrdered(d, rule, path, s + t)
  {
    hide ErrorBefore;
    forall a, b | 0 <= a < b < |s + t|
      ensures ErrorBefore(d, rule, path, (s + t)[a], (s + t)[b])
    {
      if b < |s| {
        assert ErrorBefore(d, rule, path, s[a], s[b]);
      } else if |s| <= a {
        assert ErrorBefore(d, rule, path, t[a - |s|], t[b - |s|]);
      } else {
        assert s[a] in s && t[b - |s|] in t;
      }
    }
  }

  /** Errors ordered inside an entry are ordered in the dictionary. */
  lemma ErrorsInEntry(d: Data, k: nat, rule: Rule, own: Rule, path: Path, s: seq<Problem>)
    requires d.Dict? && k < |d.entries| && RightType(d, rule) && Applies(rule, d.entries[k].key, own)
    requires ErrorsOrdered(d.entries[k].value, own, path + [Key(d.entries[k].key)], s)
    ensures ErrorsOrdered(d, rule, path, s)
  {
    hide PlaceBefore;
    var e, below := d.entries[k], path + [Key(d.entries[k].key)];
    BeforeInEntry(d, path, k);
    forall a, b | 0 <= a < b < |s|
      ensures ErrorBefore(d, rule, path, s[a], s[b])
    {
      assert ErrorBefore(e.value, own, below, s[a], s[b]);
      if s[a].Missing? && s[b].Missing? {
        if x: Data, r: Rule :|
          Reaches(e.value, own, below, x, r, s[a].path) && SchemaBefore(r.schema, s[a].key, s[b].key)
        {
          assert Reaches(d, rule, path, x, r, s[a].path);
        }
      }
    }
  }

  lemma ErrorsInItem(d: Data, k: nat, rule: Rule, path: Path, s: seq<Problem>)
    requires d.List? && k < |d.items| && RightType(d, rule) && rule.itemRule.Some?
    requires ErrorsOrdered(d.items[k], rule.itemRule.value, path + [Index(k)], s)
    ensures ErrorsOrdered(d, rule, path, s)
  {
    hide PlaceBefore;
    var own, below := rule.itemRule.value, path + [Index(k)];
    BeforeInItem(d, path, k);
    forall a, b | 0 <= a < b < |s|
      ensures ErrorBefore(d, rule, path, s[a], s[b])
    {
      assert ErrorBefore(d.items[k], own, below, s[a], s[b]);
      if s[a].Missing? && s[b].Missing? {
        if x: Data, r: Rule :|
          Reaches(d.items[k], own, below, x, r, s[a].path) && SchemaBefore(r.schema, s[a].key, s[b].key)
        {
          assert Reaches(d, rule, path, x, r, s[a].path);
        }
      }
    }
  }

  lemma FailedPlace(d: Data, k: nat, rule: Rule, path: Path, x: Problem, matches: Matcher)
    requires d.Dict? && k < |d.entries| && FailsAt(d, k, rule, path, x, matches)
    ensures GoesOn(x.path, path, Key(d.entries[k].key))
  {
    hide Validate;
    var e := d.entries[k];
    ErrorBelow(e.value, RuleFor(rule, e.key).value, path + [Key(e.key)], x, matches);
    ExtendsStep(x.path, path, Key(e.key));
  }

  lemma {:induction false} EntryErrorsOrdered(d: Data, n: nat, rule: Rule, path: Path, matches: Matcher)
    requires d.Dict? && n <= |d.entries| && RightType(d, rule)
    ensures ErrorsOrdered(d, rule, path, ValidateEntries(d, n, rule, path, matches).errors)
    decreases d, 0, n
  {
    hide Validate, PlaceBefore;
    if n > 0 {
      EntryErrorsOrdered(d, n - 1, rule, path, matches);
      var e := d.entries[n - 1];
      if RuleFor(rule, e.key).Some? {
        var own := RuleFor(rule, e.key).value;
        var before := ValidateEntries(d, n - 1, rule, path, matches).errors;
        var added := Validate(e.value, own, path + [Key(e.key)], matches).errors;
        RuleForIff(rule, e.key, own);
        ErrorsInOrder(e.value, own, path + [Key(e.key)], matches);
        ErrorsInEntry(d, n - 1, rule, own, path, added);
        forall x, y | x in before && y in added
          ensures ErrorBefore(d, rule, path, x, y)
        {
          EntryErrors(d, n - 1, rule, path, x, matches);
          var k: nat :| k < n - 1 && FailsAt(d, k, rule, path, x, matches);
          FailedPlace(d, k, rule, path, x, matches);
          FailedPlace(d, n - 1, rule, path, y, matches);
          EntryBefore(d, path, k, n - 1, x.path, y.path);
        }
        JoinErrors(d, rule, path, before, added);
      }
    }
  }

  lemma {:induction false} ItemErrorsOrdered(d: Data, n: nat, rule: Rule, path: Path, matches: Matcher)
    requires d.List? && n <= |d.items| && RightType(d, rule) && rule.itemRule.Some?
    ensures ErrorsOrdered(d, rule, path, ValidateItems(d, n, rule.itemRule.value, path, matches).errors)
    decreases d, 0, n
  {
    hide Validate, PlaceBefore;
    if n > 0 {
      var own := rule.itemRule.value;
      var before := ValidateItems(d, n - 1, own, path, matches).errors;
      var added := Validate(d.items[n - 1], own, path + [Index(n - 1)], matches).errors;
      ItemErrorsOrdered(d, n - 1, rule, path, matches);
      ErrorsInOrder(d.items[n - 1], own, path + [Index(n - 1)], matches);
      ErrorsInItem(d, n - 1, rule, path, added);
      forall x, y | x in before && y in added
        ensures ErrorBefore(d, rule, path, x, y)
      {
        ItemErrors(d, n - 1, own, path, x, matches);
        var k: nat :| k < n - 1 && x in Validate(d.items[k], own, path + [Index(k)], matches).errors;
        ErrorBelow(d.items[k], own, path + [Index(k)], x, matches);
        ErrorBelow(d.items[n - 1], own, path + [Index(n - 1)], y, matches);
        ItemBefore(d, path, k, n - 1, x.path, y.path);
      }
      JoinErrors(d, rule, path, before, added);
    }
  }

  lemma {:induction false} MissingInOrder(schema: seq<Field>, kept: seq<Entry>, path: Path, a: nat, b: nat)
    requires a < b < |MissingKeys(schema, kept, path)|
    ensures
      var s := MissingKeys(schema, kept, path);
      s[a].Missing? && s[b].Missing? && s[a].path == path == s[b].path && SchemaBefore(schema, s[a].key, s[b].key)
  {
    var s, rest := MissingKeys(schema, kept, path), MissingKeys(schema[1..], kept, path);
    var first := |s| - |rest|;
    assert s[b] == rest[b - first];
    if first <= a {
      MissingInOrder(schema[1..], kept, path, a - first, b - first);
      SchemaBeforeStep(schema, s[a].key, s[b].key);
    } else {
      MissingIff(schema[1..], kept, path, rest[b - first]);
      var j :| 0 <= j < |schema[1..]| && schema[1..][j].key == s[b].key;
      assert schema[0].key == s[a].key && schema[j + 1].key == s[b].key;
    }
  }

  lemma SchemaBeforeStep(schema: seq<Field>, key: string, other: string)
    requires schema != [] && SchemaBefore(schema[1..], key, other)
    ensures SchemaBefore(schema, key, other)
  {
    var i, j :| 0 <= i < j < |schema[1..]| && schema[1..][i].key == key && schema[1..][j].key == other;
    assert schema[i + 1].key == key && schema[j + 1].key == other;
  }

  /**
   * The errors come in the order of the data; the keys that a dictionary lacks come after the errors inside it, in the
   * order of the schema.
   */
  lemma {:induction false} ErrorsInOrder(d: Data, rule: Rule, path: Path, matches: Matcher)
    ensures ErrorsOrdered(d, rule, path, Validate(d, rule, path, matches).errors)
    decreases d, 1, 0
  {
    hide PlaceBefore;
    if RightType(d, rule) && d.Dict? {
      var r := ValidateEntries(d, |d.entries|, rule, path, matches);
      var missing := MissingKeys(rule.schema, r.kept, path);
      EntryErrorsOrdered(d, |d.entries|, rule, path, matches);
      forall a, b | 0 <= a < b < |missing|
        ensures ErrorBefore(d, rule, path, missing[a], missing[b])
      {
        MissingInOrder(rule.schema, r.kept, path, a, b);
        assert Reaches(d, rule, path, d, rule, path);
      }
      forall x, y | x in r.errors && y in missing
        ensures ErrorBefore(d, rule, path, x, y)
      {
        EntryErrors(d, |d.entries|, rule, path, x, matches);
        var k: nat :| k < |d.entries| && FailsAt(d, k, rule, path, x, matches);
        FailedPlace(d, k, rule, path, x, matches);
        MissingIff(rule.schema, r.kept, path, y);
      }
      JoinErrors(d, rule, path, r.errors, missing);
    } else if RightType(d, rule) && d.List? && rule.itemRule.Some? {
      ItemErrorsOrdered(d, |d.items|, rule, path, matches);
    }
  }

  // ------------------------------------------------------------------ each problem once

  /** No dictionary in the data holds a key twice. */
  predicate KeysOnce(d: Data)
    decreases d
  {
    match d
    case Dict(entries) =>
      && (forall i, j :: 0 <= i < j < |entries| ==> entries[i].key != entries[j].key)
      && (forall i :: 0 <= i < |entries| ==> KeysOnce(entries[i].value))
    case List(items) => forall i :: 0 <= i < |items| ==> KeysOnce(items[i])
    case Str(_) => true
    case Number(_) => true
    case Null => true
  }

  predicate SchemaKeysOnce(rule: Rule)
    decreases rule
  {
    && (forall i, j :: 0 <= i < j < |rule.schema| ==> rule.schema[i].key != rule.schema[j].key)
    && (forall k :: 0 <= k < |rule.schema| ==> SchemaKeysOnce(rule.schema[k].rule))
    && (rule.valuesRule.Some? ==> SchemaKeysOnce(rule.valuesRule.value))
    && (rule.itemRule.Some? ==> SchemaKeysOnce(rule.itemRule.value))
  }

  lemma {:induction false} NoPlaceBeforeItself(d: Data, path: Path, p: Path)
    requires KeysOnce(d)
    ensures !PlaceBefore(d, path, p, p)
    decreases d
  {
    match d
    case Dict(entries) =>
      forall i: nat | i < |entries|
        ensures !PlaceBefore(entries[i].value, path + [Key(entries[i].key)], p, p)
      {
        NoPlaceBeforeItself(entries[i].value, path + [Key(entries[i].key)], p);
      }
    case List(items) =>
      forall i: nat | i < |items|
        ensures !PlaceBefore(items[i], path + [Index(i)], p, p)
      {
        NoPlaceBeforeItself(items[i], path + [Index(i)], p);
      }
    case Str(_) =>
    case Number(_) =>
    case Null =>
  }

  lemma {:induction false} ReachedSchema(d: Data, rule: Rule, path: Path, e: Data, r: Rule, place: Path)
    requires SchemaKeysOnce(rule) && Reaches(d, rule, path, e, r, place)
    ensures SchemaKeysOnce(r)
    decreases d
  {
    if !(e == d && r == rule && place == path) {
      if d.Dict? {
        var k: nat, own: Rule :| k < |d.entries| && Applies(rule, d.entries[k].key, own) &&
          Reaches(d.entries[k].value, own, path + [Key(d.entries[k].key)], e, r, place);
        ReachedSchema(d.entries[k].value, own, path + [Key(d.entries[k].key)], e, r, place);
      } else {
        var k: nat :| k < |d.items| && Reaches(d.items[k], rule.itemRule.value, path + [Index(k)], e, r, place);
        ReachedSchema(d.items[k], rule.itemRule.value, path + [Index(k)], e, r, place);
      }
    }
  }

  lemma NotBeforeItself(d: Data, rule: Rule, path: Path, x: Problem)
    requires KeysOnce(d) && SchemaKeysOnce(rule)
    ensures !ErrorBefore(d, rule, path, x, x)
  {
    hide PlaceBefore;
    NoPlaceBeforeItself(d, path, x.path);
    if x.Missing? {
      forall e: Data, r: Rule | Reaches(d, rule, path, e, r, x.path)
        ensures !SchemaBefore(r.schema, x.key, x.key)
      {
        ReachedSchema(d, rule, path, e, r, x.path);
      }
    }
  }

  /** Every problem is listed once. */
  lemma ProblemsOnce(d: Data, rule: Rule, path: Path, matches: Matcher, a: nat, b: nat)
    requires KeysOnce(d) && SchemaKeysOnce(rule)
    ensures
      var r := Validate(d, rule, path, matches);
      && (a < b < |r.warnings| ==> r.warnings[a] != r.warnings[b])
      && (a < b < |r.errors| ==> r.errors[a] != r.errors[b])
  {
    hide Validate, PlaceBefore;
    var r := Validate(d, rule, path, matches);
    WarningsInOrder(d, rule, path, matches);
    ErrorsInOrder(d, rule, path, matches);
    if a < b < |r.warnings| {
      NoPlaceBeforeItself(d, path, EntryPlace(r.warnings[a]));
      assert WarningBefore(d, path, r.warnings[a], r.warnings[b]);
    }
    if a < b < |r.errors| {
      assert ErrorBefore(d, rule, path, r.errors[a], r.errors[b]);
      NotBeforeItself(d, rule, path, r.errors[a]);
    }
  }
}
