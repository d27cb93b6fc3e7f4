/**
 * Which errors and warnings the validator finds, told by the places of the report that the rules reach, and what the
 * cleaned report keeps of every place, also in a report with errors.
 */
module ReportProblems {
  import opened Options
  import opened ReportRules

  // ------------------------------------------------------------------ reaching a place

  /** The rule that the schema has for the key: that of the first field of this name. */
  predicate IsFieldRule(schema: seq<Field>, key: string, own: Rule) {
    exists k {:trigger schema[k]} :: 0 <= k < |schema| && schema[k].key == key && schema[k].rule == own &&
      forall j :: 0 <= j < k ==> schema[j].key != key
  }

  predicate HasField(schema: seq<Field>, key: string) { exists k :: 0 <= k < |schema| && schema[k].key == key }

  lemma {:induction false} FieldRuleIff(schema: seq<Field>, key: string, own: Rule)
    ensures FieldRule(schema, key) == Some(own) <==> IsFieldRule(schema, key, own)
    ensures FieldRule(schema, key) == None <==> !HasField(schema, key)
  {
    if schema != [] {
      FieldRuleIff(schema[1..], key, own);
      assert forall k :: 0 < k < |schema| ==> schema[k] == schema[1..][k - 1];
      assert forall k :: 0 <= k < |schema| - 1 ==> schema[1..][k] == schema[k + 1];
    }
  }

  /** The rule that applies to a value of the dictionary: its key's own, else the one for all values. */
  predicate Applies(rule: Rule, key: string, own: Rule) {
    if HasField(rule.schema, key) then IsFieldRule(rule.schema, key, own) else rule.valuesRule == Some(own)
  }

  /** No rule applies to the key. */
  predicate Unruled(rule: Rule, key: string) { !HasField(rule.schema, key) && rule.valuesRule == None }

  lemma RuleForIff(rule: Rule, key: string, own: Rule)
    ensures RuleFor(rule, key) == Some(own) <==> Applies(rule, key, own)
    ensures RuleFor(rule, key) == None <==> Unruled(rule, key)
  {
    FieldRuleIff(rule.schema, key, own);
    var r := FieldRule(rule.schema, key);
    if r.Some? { FieldRuleIff(rule.schema, key, r.value); }
  }

  /** The data is of the type that the rule asks for, if it asks for one. */
  predicate RightType(d: Data, rule: Rule) {
    match rule.kind
    case None => true
    case Some(StrKind) => d.Str?
    case Some(DictKind) => d.Dict?
    case Some(ListKind) => d.List?
  }

  /**
   * From `d` with `rule` at `path`, the rules reach `e` with rule `r` at `place`: step by step into the values of
   * dictionaries and the items of lists that are of the right type and have a rule.
   */
  ghost predicate Reaches(d: Data, rule: Rule, path: Path, e: Data, r: Rule, place: Path)
    decreases d
  {
    || (e == d && r == rule && place == path)
    || (RightType(d, rule) && d.Dict? && exists k: nat, own: Rule {:trigger Applies(rule, d.entries[k].key, own)} ::
          k < |d.entries| && Applies(rule, d.entries[k].key, own) &&
          Reaches(d.entries[k].value, own, path + [Key(d.entries[k].key)], e, r, place))
    || (RightType(d, rule) && d.List? && rule.itemRule.Some? && exists k: nat {:trigger d.items[k]} ::
          k < |d.items| && Reaches(d.items[k], rule.itemRule.value, path + [Index(k)], e, r, place))
  }

  /** At `place` the rules reach a value and a rule with the property. */
  ghost predicate Found(d: Data, rule: Rule, path: Path, place: Path, local: (Data, Rule) -> bool) {
    exists e: Data, r: Rule {:trigger Reaches(d, rule, path, e, r, place)} ::
      Reaches(d, rule, path, e, r, place) && local(e, r)
  }

  /** In the value of entry `k`, under the rule for its key. */
  ghost predicate FoundInEntry(d: Data, k: nat, rule: Rule, path: Path, place: Path, local: (Data, Rule) -> bool)
    requires d.Dict? && k < |d.entries|
  {
    var e := d.entries[k];
    RuleFor(rule, e.key).Some? && Found(e.value, RuleFor(rule, e.key).value, path + [Key(e.key)], place, local)
  }

  ghost predicate FoundInItem(d: Data, k: nat, rule: Rule, path: Path, place: Path, local: (Data, Rule) -> bool)
    requires d.List? && k < |d.items|
  {
    Found(d.items[k], rule, path + [Index(k)], place, local)
  }

  lemma FoundHere(d: Data, rule: Rule, path: Path, local: (Data, Rule) -> bool)
    requires local(d, rule)
    ensures Found(d, rule, path, path, local)
  {
    assert Reaches(d, rule, path, d, rule, path);
  }

  lemma FoundBelowEntry(d: Data, k: nat, rule: Rule, path: Path, place: Path, local: (Data, Rule) -> bool)
    requires d.Dict? && k < |d.entries| && RightType(d, rule) && FoundInEntry(d, k, rule, path, place, local)
    ensures Found(d, rule, path, place, local)
  {
    var entry := d.entries[k];
    var own := RuleFor(rule, entry.key).value;
    RuleForIff(rule, entry.key, own);
    var e: Data, r: Rule :| Reaches(entry.value, own, path + [Key(entry.key)], e, r, place) && local(e, r);
    assert Reaches(d, rule, path, e, r, place);
  }

  lemma FoundBelowItem(d: Data, k: nat, rule: Rule, path: Path, place: Path, local: (Data, Rule) -> bool)
    requires d.List? && k < |d.items| && RightType(d, rule) && rule.itemRule.Some?
    requires FoundInItem(d, k, rule.itemRule.value, path, place, local)
    ensures Found(d, rule, path, place, local)
  {
    var e: Data, r: Rule :|
      Reaches(d.items[k], rule.itemRule.value, path + [Index(k)], e, r, place) && local(e, r);
    assert Reaches(d, rule, path, e, r, place);
  }

  /** What is found in a value is found at the value itself or in one of its parts. */
  lemma FoundSplits(d: Data, rule: Rule, path: Path, place: Path, local: (Data, Rule) -> bool)
    requires Found(d, rule, path, place, local)
    ensures
      || (place == path && local(d, rule))
      || (RightType(d, rule) && d.Dict? &&
          exists k: nat :: k < |d.entries| && FoundInEntry(d, k, rule, path, place, local))
      || (RightType(d, rule) && d.List? && rule.itemRule.Some? &&
          exists k: nat :: k < |d.items| && FoundInItem(d, k, rule.itemRule.value, path, place, local))
  {
    var e: Data, r: Rule :| Reaches(d, rule, path, e, r, place) && local(e, r);
    if !(e == d && r == rule && place == path) {
      if d.Dict? {
        var k: nat, own: Rule :| k < |d.entries| && Applies(rule, d.entries[k].key, own) &&
          Reaches(d.entries[k].value, own, path + [Key(d.entries[k].key)], e, r, place);
        RuleForIff(rule, d.entries[k].key, own);
        assert FoundInEntry(d, k, rule, path, place, local);
      } else {
        var k: nat :| k < |d.items| && Reaches(d.items[k], rule.itemRule.value, path + [Index(k)], e, r, place);
        assert FoundInItem(d, k, rule.itemRule.value, path, place, local);
      }
    }
  }

  // ------------------------------------------------------------------ what a value keeps of itself

  /** The text fits the pattern, or without one it has a first character other than a line break. */
  predicate Fits(text: string, pattern: Option<string>, matches: Matcher) {
    match pattern
    case Some(p) => matches(p, text)
    case None => |text| > 0 && text[0] != '\n'
  }

  /** The value is not dropped for its own type or text. */
  predicate Survives(d: Data, rule: Rule, matches: Matcher) {
    RightType(d, rule) && (d.Str? ==> Fits(d.text, rule.pattern, matches)) && !d.Null?
  }

  lemma SurvivesIff(d: Data, rule: Rule, path: Path, matches: Matcher)
    ensures Survives(d, rule, matches) <==> !Validate(d, rule, path, matches).cleaned.Null?
  { }

  /** An entry with the key has a rule and survives it. */
  predicate KeepsKey(d: Data, rule: Rule, key: string, matches: Matcher)
    requires d.Dict?
  {
    exists k {:trigger d.entries[k]} ::
      0 <= k < |d.entries| && SurvivesAt(d, k, rule, matches) && d.entries[k].key == key
  }

  predicate SurvivesAt(d: Data, k: nat, rule: Rule, matches: Matcher)
    requires d.Dict? && k < |d.entries|
  {
    var e := d.entries[k];
    RuleFor(rule, e.key).Some? && Survives(e.value, RuleFor(rule, e.key).value, matches)
  }

  lemma {:induction false} KeptKeys(d: Data, n: nat, rule: Rule, path: Path, matches: Matcher, key: string)
    requires d.Dict? && n <= |d.entries|
    ensures HasKey(ValidateEntries(d, n, rule, path, matches).kept, key) <==>
      exists k {:trigger d.entries[k]} :: 0 <= k < n && SurvivesAt(d, k, rule, matches) && d.entries[k].key == key
  {
    hide Validate, Survives;
    if n > 0 {
      KeptKeys(d, n - 1, rule, path, matches, key);
      var e, before := d.entries[n - 1], ValidateEntries(d, n - 1, rule, path, matches).kept;
      var own := RuleFor(rule, e.key);
      if own.Some? {
        SurvivesIff(e.value, own.value, path + [Key(e.key)], matches);
        HasKeyMore(before, Entry(e.key, Validate(e.value, own.value, path + [Key(e.key)], matches).cleaned), key);
        assert before + [] == before;
      }
    }
  }

  // ------------------------------------------------------------------ the warnings

  /** A dictionary of the right type, with a schema, has an entry for the key to which no rule applies. */
  predicate Unknown(e: Data, r: Rule, key: string) {
    RightType(e, r) && e.Dict? && r.schema != [] && HasKey(e.entries, key) && Unruled(r, key)
  }

  /** Among the first `n` entries: one that no rule applies to, or one in whose value the warning is found. */
  ghost predicate WarnedIn(d: Data, n: nat, rule: Rule, path: Path, w: Warning, matches: Matcher)
    requires d.Dict? && n <= |d.entries|
  {
    exists k: nat :: k < n && WarnedAt(d, k, rule, path, w, matches)
  }

  ghost predicate WarnedAt(d: Data, k: nat, rule: Rule, path: Path, w: Warning, matches: Matcher)
    requires d.Dict? && k < |d.entries|
  {
    var e := d.entries[k];
    match RuleFor(rule, e.key)
    case None => rule.schema != [] && w == UnknownKey(path, e.key)
    case Some(own) => w in Validate(e.value, own, path + [Key(e.key)], matches).warnings
  }

  lemma {:induction false} EntryWarnings(d: Data, n: nat, rule: Rule, path: Path, w: Warning, matches: Matcher)
    requires d.Dict? && n <= |d.entries|
    ensures w in ValidateEntries(d, n, rule, path, matches).warnings <==> WarnedIn(d, n, rule, path, w, matches)
  {
    hide Validate;
    if n > 0 {
      EntryWarnings(d, n - 1, rule, path, w, matches);
      var e := d.entries[n - 1];
      assert WarnedIn(d, n, rule, path, w, matches) <==>
        WarnedIn(d, n - 1, rule, path, w, matches) || WarnedAt(d, n - 1, rule, path, w, matches);
      var before := ValidateEntries(d, n - 1, rule, path, matches).warnings;
      assert before + [] == before;
      assert w in [UnknownKey(path, e.key)] <==> w == UnknownKey(path, e.key);
    }
  }

  lemma {:induction false} ItemWarnings(d: Data, n: nat, rule: Rule, path: Path, w: Warning, matches: Matcher)
    requires d.List? && n <= |d.items|
    ensures w in ValidateItems(d, n, rule, path, matches).warnings <==>
      exists k: nat {:trigger d.items[k]} ::
        k < n && w in Validate(d.items[k], rule, path + [Index(k)], matches).warnings
  {
    hide Validate;
    if n > 0 { ItemWarnings(d, n - 1, rule, path, w, matches); }
  }

  /**
   * The validator warns of a key at a place exactly if the rules reach, at that place, a dictionary of the right type
   * with a schema that has an entry for the key to which no rule applies.
   */
  lemma {:induction false} WarningsIff(d: Data, rule: Rule, path: Path, w: Warning, matches: Matcher)
    ensures w in Validate(d, rule, path, matches).warnings <==>
      Found(d, rule, path, w.path, (e: Data, r: Rule) => Unknown(e, r, w.key))
    decreases d
  {
    var local := (e: Data, r: Rule) => Unknown(e, r, w.key);
    if Found(d, rule, path, w.path, local) { FoundSplits(d, rule, path, w.path, local); }
    if RightType(d, rule) {
      match d {
        case Dict(entries) =>
          EntryWarnings(d, |entries|, rule, path, w, matches);
          DictWarnings(d, rule, path, w, matches, local);
        case List(items) =>
          if rule.itemRule.Some? {
            ItemWarnings(d, |items|, rule.itemRule.value, path, w, matches);
            forall k: nat | k < |items|
              ensures w in Validate(items[k], rule.itemRule.value, path + [Index(k)], matches).warnings <==>
                FoundInItem(d, k, rule.itemRule.value, path, w.path, local)
            {
              WarningsIff(items[k], rule.itemRule.value, path + [Index(k)], w, matches);
            }
            if k: nat :| k < |items| && FoundInItem(d, k, rule.itemRule.value, path, w.path, local) {
              FoundBelowItem(d, k, rule, path, w.path, local);
            }
          }
        case Str(_) =>
        case Number(_) =>
        case Null =>
      }
    }
  }

  lemma {:induction false} DictWarnings(d: Data, rule: Rule, path: Path, w: Warning, matches: Matcher,
                                        local: (Data, Rule) -> bool)
    requires d.Dict? && RightType(d, rule)
    requires local == ((e: Data, r: Rule) => Unknown(e, r, w.key))
    ensures WarnedIn(d, |d.entries|, rule, path, w, matches) <==> Found(d, rule, path, w.path, local)
    decreases d, 0
  {
    forall k: nat | k < |d.entries| && RuleFor(rule, d.entries[k].key).Some?
      ensures WarnedAt(d, k, rule, path, w, matches) <==> FoundInEntry(d, k, rule, path, w.path, local)
    {
      WarningsIff(d.entries[k].value, RuleFor(rule, d.entries[k].key).value, path + [Key(d.entries[k].key)], w,
                  matches);
    }
    if WarnedIn(d, |d.entries|, rule, path, w, matches) {
      var k: nat :| k < |d.entries| && WarnedAt(d, k, rule, path, w, matches);
      RuleForIff(rule, d.entries[k].key, rule);
      if RuleFor(rule, d.entries[k].key).Some? {
        FoundBelowEntry(d, k, rule, path, w.path, local);
      } else {
        FoundHere(d, rule, path, local);
      }
    }
    if Found(d, rule, path, w.path, local) {
      FoundSplits(d, rule, path, w.path, local);
      if w.path == path && local(d, rule) {
        var k :| 0 <= k < |d.entries| && d.entries[k].key == w.key;
        RuleForIff(rule, w.key, rule);
        assert WarnedAt(d, k, rule, path, w, matches);
      } else {
        var k: nat :| k < |d.entries| && FoundInEntry(d, k, rule, path, w.path, local);
        assert WarnedAt(d, k, rule, path, w, matches);
      }
    }
  }

  // ------------------------------------------------------------------ the errors

  /** The errors that a value causes itself, apart from its parts. */
  function OwnErrors(d: Data, rule: Rule, path: Path, matches: Matcher): seq<Problem> {
    if rule.kind.Some? && !IsA(d, rule.kind.value) then [WrongType(path, rule.kind.value)]
    else if d.Str? && !TextOk(d.text, rule.pattern, matches) then [NoMatch(path, d.text, rule.pattern)]
    else if d.Dict? then MissingKeys(rule.schema, ValidateEntries(d, |d.entries|, rule, path, matches).kept, path)
    else []
  }

  /** What must hold of a value and its rule for the error. */
  predicate Causes(e: Data, r: Rule, x: Problem, matches: Matcher) {
    match x
    case WrongType(_, kind) => r.kind == Some(kind) && !RightType(e, r)
    case NoMatch(_, text, pattern) =>
      RightType(e, r) && e == Str(text) && pattern == r.pattern && !Fits(text, pattern, matches)
    case Missing(_, key) =>
      RightType(e, r) && e.Dict? && Demands(r.schema, key) && !KeepsKey(e, r, key, matches)
  }

  /** The schema has a required field of that name. */
  predicate Demands(schema: seq<Field>, key: string) {
    exists k :: 0 <= k < |schema| && schema[k].key == key && schema[k].rule.required
  }

  lemma {:induction false} MissingIff(schema: seq<Field>, kept: seq<Entry>, path: Path, x: Problem)
    ensures x in MissingKeys(schema, kept, path) <==>
      x.Missing? && x.path == path && Demands(schema, x.key) && !HasKey(kept, x.key)
  {
    if schema != [] {
      MissingIff(schema[1..], kept, path, x);
      assert forall k :: 0 < k < |schema| ==> schema[k] == schema[1..][k - 1];
      assert forall k :: 0 <= k < |schema| - 1 ==> schema[1..][k] == schema[k + 1];
      if x.Missing? {
        assert Demands(schema, x.key) <==>
          (schema[0].key == x.key && schema[0].rule.required) || Demands(schema[1..], x.key);
      }
    }
  }

  lemma OwnErrorsIff(d: Data, rule: Rule, path: Path, x: Problem, matches: Matcher)
    ensures x in OwnErrors(d, rule, path, matches) <==> x.path == path && Causes(d, rule, x, matches)
  {
    if d.Dict? {
      MissingIff(rule.schema, ValidateEntries(d, |d.entries|, rule, path, matches).kept, path, x);
      if x.Missing? { KeptKeys(d, |d.entries|, rule, path, matches, x.key); }
    }
  }

  ghost predicate FailsAt(d: Data, k: nat, rule: Rule, path: Path, x: Problem, matches: Matcher)
    requires d.Dict? && k < |d.entries|
  {
    var e := d.entries[k];
    RuleFor(rule, e.key).Some? &&
    x in Validate(e.value, RuleFor(rule, e.key).value, path + [Key(e.key)], matches).errors
  }

  ghost predicate FailsIn(d: Data, n: nat, rule: Rule, path: Path, x: Problem, matches: Matcher)
    requires d.Dict? && n <= |d.entries|
  {
    exists k: nat :: k < n && FailsAt(d, k, rule, path, x, matches)
  }

  lemma {:induction false} EntryErrors(d: Data, n: nat, rule: Rule, path: Path, x: Problem, matches: Matcher)
    requires d.Dict? && n <= |d.entries|
    ensures x in ValidateEntries(d, n, rule, path, matches).errors <==> FailsIn(d, n, rule, path, x, matches)
  {
    hide Validate;
    if n > 0 {
      EntryErrors(d, n - 1, rule, path, x, matches);
      assert FailsIn(d, n, rule, path, x, matches) <==>
        FailsIn(d, n - 1, rule, path, x, matches) || FailsAt(d, n - 1, rule, path, x, matches);
    }
  }

  lemma {:induction false} ItemErrors(d: Data, n: nat, rule: Rule, path: Path, x: Problem, matches: Matcher)
    requires d.List? && n <= |d.items|
    ensures x in ValidateItems(d, n, rule, path, matches).errors <==>
      exists k: nat {:trigger d.items[k]} :: k < n && x in Validate(d.items[k], rule, path + [Index(k)], matches).errors
  {
    hide Validate;
    if n > 0 { ItemErrors(d, n - 1, rule, path, x, matches); }
  }

  lemma OwnAndParts(d: Data, rule: Rule, path: Path, x: Problem, matches: Matcher)
    ensures x in Validate(d, rule, path, matches).errors <==>
      || x in OwnErrors(d, rule, path, matches)
      || (RightType(d, rule) && d.Dict? && x in ValidateEntries(d, |d.entries|, rule, path, matches).errors)
      || (RightType(d, rule) && d.List? && rule.itemRule.Some? &&
          x in ValidateItems(d, |d.items|, rule.itemRule.value, path, matches).errors)
  { }

  /**
   * The validator reports an error at a place exactly if the rules reach, at that place, a value that causes it: one of
   * a type other than the rule's, a text that does not fit, or a dictionary of the right type that keeps no entry for a
   * required key of the schema.
   */
  lemma {:induction false} ErrorsIff(d: Data, rule: Rule, path: Path, x: Problem, matches: Matcher)
    ensures x in Validate(d, rule, path, matches).errors <==>
      Found(d, rule, path, x.path, (e: Data, r: Rule) => Causes(e, r, x, matches))
    decreases d
  {
    hide Validate, Causes, OwnErrors, ValidateEntries, ValidateItems;
    var local := (e: Data, r: Rule) => Causes(e, r, x, matches);
    OwnAndParts(d, rule, path, x, matches);
    OwnErrorsIff(d, rule, path, x, matches);
    if Found(d, rule, path, x.path, local) { FoundSplits(d, rule, path, x.path, local); }
    if x.path == path && Causes(d, rule, x, matches) { FoundHere(d, rule, path, local); }
    if RightType(d, rule) && d.Dict? {
      EntryErrors(d, |d.entries|, rule, path, x, matches);
      forall k: nat | k < |d.entries| && RuleFor(rule, d.entries[k].key).Some?
        ensures FailsAt(d, k, rule, path, x, matches) <==> FoundInEntry(d, k, rule, path, x.path, local)
      {
        ErrorsIff(d.entries[k].value, RuleFor(rule, d.entries[k].key).value, path + [Key(d.entries[k].key)], x,
                  matches);
      }
      if k: nat :| k < |d.entries| && FoundInEntry(d, k, rule, path, x.path, local) {
        FoundBelowEntry(d, k, rule, path, x.path, local);
        assert FailsAt(d, k, rule, path, x, matches);
      }
    } else if RightType(d, rule) && d.List? && rule.itemRule.Some? {
      ItemErrors(d, |d.items|, rule.itemRule.value, path, x, matches);
      forall k: nat | k < |d.items|
        ensures x in Validate(d.items[k], rule.itemRule.value, path + [Index(k)], matches).errors <==>
          FoundInItem(d, k, rule.itemRule.value, path, x.path, local)
      {
        ErrorsIff(d.items[k], rule.itemRule.value, path + [Index(k)], x, matches);
      }
      if k: nat :| k < |d.items| && FoundInItem(d, k, rule.itemRule.value, path, x.path, local) {
        FoundBelowItem(d, k, rule, path, x.path, local);
      }
    }
  }

  // ------------------------------------------------------------------ the cleaned report

  predicate Increasing(ix: seq<nat>) { forall a, b :: 0 <= a < b < |ix| ==> ix[a] < ix[b] }

  /** `kept` holds the cleaned values of the surviving ones among the first `n` entries, those at `ix`, in order. */
  ghost predicate KeepsEntries(d: Data, n: nat, rule: Rule, kept: seq<Entry>, ix: seq<nat>, matches: Matcher)
    requires d.Dict? && n <= |d.entries|
    decreases d, 0
  {
    && |ix| == |kept| && Increasing(ix)
    && (forall k: nat {:trigger SurvivesAt(d, k, rule, matches)} ::
      k < n && SurvivesAt(d, k, rule, matches) ==> k in ix)
    && forall a {:trigger ix[a]} :: 0 <= a < |ix| ==>
         && ix[a] < n && SurvivesAt(d, ix[a], rule, matches) && kept[a].key == d.entries[ix[a]].key
         && Cleans(d.entries[ix[a]].value, RuleFor(rule, d.entries[ix[a]].key).value, kept[a].value, matches)
  }

  ghost predicate KeepsItems(d: Data, n: nat, rule: Rule, kept: seq<Data>, ix: seq<nat>, matches: Matcher)
    requires d.List? && n <= |d.items|
    decreases d, 0
  {
    && |ix| == |kept| && Increasing(ix)
    && (forall k: nat {:trigger d.items[k]} :: k < n && Survives(d.items[k], rule, matches) ==> k in ix)
    && forall a {:trigger ix[a]} :: 0 <= a < |ix| ==>
         ix[a] < n && Survives(d.items[ix[a]], rule, matches) && Cleans(d.items[ix[a]], rule, kept[a], matches)
  }

  /** `c` is the data without what does not survive and without the entries that no rule applies to, at every depth. */
  ghost predicate Cleans(d: Data, rule: Rule, c: Data, matches: Matcher)
    decreases d, 1
  {
    if !Survives(d, rule, matches) then c == Null
    else if d.Dict? then
      c.Dict? && exists ix :: KeepsEntries(d, |d.entries|, rule, c.entries, ix, matches)
    else if d.List? && rule.itemRule.Some? then
      c.List? && exists ix :: KeepsItems(d, |d.items|, rule.itemRule.value, c.items, ix, matches)
    else c == d
  }

  /** The next entry is kept with its cleaned value if it survives. */
  lemma KeepsOneMore(d: Data, n: nat, rule: Rule, kept: seq<Entry>, ix: seq<nat>, c: Data, matches: Matcher)
    requires d.Dict? && n < |d.entries| && KeepsEntries(d, n, rule, kept, ix, matches)
    requires SurvivesAt(d, n, rule, matches) ==>
      Cleans(d.entries[n].value, RuleFor(rule, d.entries[n].key).value, c, matches)
    ensures SurvivesAt(d, n, rule, matches) ==>
      KeepsEntries(d, n + 1, rule, kept + [Entry(d.entries[n].key, c)], ix + [n], matches)
    ensures !SurvivesAt(d, n, rule, matches) ==> KeepsEntries(d, n + 1, rule, kept, ix, matches)
  {
    hide Cleans, SurvivesAt, RuleFor;
    assert forall k :: k in ix + [n] <==> k in ix || k == n;
  }

  lemma NothingKept(d: Data, rule: Rule, matches: Matcher)
    requires d.Dict?
    ensures KeepsEntries(d, 0, rule, [], [], matches)
  { }

  lemma {:induction false} EntriesKept(d: Data, n: nat, rule: Rule, path: Path, matches: Matcher) returns (ix: seq<nat>)
    requires d.Dict? && n <= |d.entries|
    ensures KeepsEntries(d, n, rule, ValidateEntries(d, n, rule, path, matches).kept, ix, matches)
    decreases d, 0, n
  {
    hide Validate, Survives, Cleans, KeepsEntries;
    if n == 0 {
      ix := [];
      NothingKept(d, rule, matches);
    } else {
      var before := EntriesKept(d, n - 1, rule, path, matches);
      var e := d.entries[n - 1];
      var own := RuleFor(rule, e.key);
      var c := if own.Some? then Validate(e.value, own.value, path + [Key(e.key)], matches).cleaned else Null;
      if own.Some? {
        CleanedIs(e.value, own.value, path + [Key(e.key)], matches);
        SurvivesIff(e.value, own.value, path + [Key(e.key)], matches);
      }
      var kept := ValidateEntries(d, n - 1, rule, path, matches).kept;
      KeepsOneMore(d, n - 1, rule, kept, before, c, matches);
      ix := if SurvivesAt(d, n - 1, rule, matches) then before + [n - 1] else before;
      assert kept + [] == kept;
    }
  }

  lemma {:induction false} ItemsKept(d: Data, n: nat, rule: Rule, path: Path, matches: Matcher) returns (ix: seq<nat>)
    requires d.List? && n <= |d.items|
    ensures KeepsItems(d, n, rule, ValidateItems(d, n, rule, path, matches).kept, ix, matches)
    decreases d, 0, n
  {
    hide Validate, Survives, Cleans;
    if n == 0 {
      ix := [];
    } else {
      ix := ItemsKept(d, n - 1, rule, path, matches);
      CleanedIs(d.items[n - 1], rule, path + [Index(n - 1)], matches);
      SurvivesIff(d.items[n - 1], rule, path + [Index(n - 1)], matches);
      if Survives(d.items[n - 1], rule, matches) {
        var before := ix;
        ix := before + [n - 1];
        assert forall k :: k in ix <==> k in before || k == n - 1;
      }
    }
  }

  /** What the validator returns, in a report with errors as well. */
  lemma {:induction false} CleanedIs(d: Data, rule: Rule, path: Path, matches: Matcher)
    ensures Cleans(d, rule, Validate(d, rule, path, matches).cleaned, matches)
    decreases d, 1, 0
  {
    SurvivesIff(d, rule, path, matches);
    if Survives(d, rule, matches) {
      if d.Dict? {
        var ix := EntriesKept(d, |d.entries|, rule, path, matches);
      } else if d.List? && rule.itemRule.Some? {
        var ix := ItemsKept(d, |d.items|, rule.itemRule.value, path, matches);
      }
    }
  }
}
