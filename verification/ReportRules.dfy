/** The rules of the hardware report and what `_validate_node` computes: errors, warnings and the cleaned report. */
module ReportRules {
  import opened Options

  /** Report data; dictionaries keep their order. `Null` also stands for the `None` that drops a value. */
  datatype Data = Str(text: string) | Dict(entries: seq<Entry>) | List(items: seq<Data>) | Number(value: int) | Null

  datatype Entry = Entry(key: string, value: Data)

  datatype Kind = StrKind | DictKind | ListKind

  datatype Rule = Rule(kind: Option<Kind>, required: bool, pattern: Option<string>, schema: seq<Field>,
                       valuesRule: Option<Rule>, itemRule: Option<Rule>)

  datatype Field = Field(key: string, rule: Rule)

  datatype Step = Key(name: string) | Index(position: nat)

  type Path = seq<Step>

  datatype Problem =
    | WrongType(path: Path, expected: Kind)
    | NoMatch(path: Path, text: string, pattern: Option<string>)
    | Missing(path: Path, key: string)

  datatype Warning = UnknownKey(path: Path, key: string)

  /** Whether a text matches a pattern of the schema. */
  type Matcher = (string, string) -> bool

  predicate IsA(d: Data, kind: Kind) {
    match kind
    case StrKind => d.Str?
    case DictKind => d.Dict?
    case ListKind => d.List?
  }

  /** Without a pattern, at least one character that is no line break must stand at the start. */
  predicate TextOk(text: string, pattern: Option<string>, matches: Matcher) {
    if pattern.Some? then matches(pattern.value, text) else text != "" && text[0] != '\n'
  }

  function FieldRule(schema: seq<Field>, key: string): Option<Rule> {
    if schema == [] then None
    else if schema[0].key == key then Some(schema[0].rule)
    else FieldRule(schema[1..], key)
  }

  /** The rule for a value: its key's own rule, else the rule for all values, else none. */
  function RuleFor(rule: Rule, key: string): Option<Rule> {
    var own := FieldRule(rule.schema, key);
    if own.Some? then own else rule.valuesRule
  }

  predicate HasKey(entries: seq<Entry>, key: string) {
    exists k :: 0 <= k < |entries| && entries[k].key == key
  }

  // ------------------------------------------------------------------ the validator as a function

  datatype Result = Result(cleaned: Data, errors: seq<Problem>, warnings: seq<Warning>)

  datatype Entries = Entries(kept: seq<Entry>, errors: seq<Problem>, warnings: seq<Warning>)

  datatype Items = Items(kept: seq<Data>, errors: seq<Problem>, warnings: seq<Warning>)

  function Validate(d: Data, rule: Rule, path: Path, matches: Matcher): Result
    decreases d, 1, 0
  {
    if rule.kind.Some? && !IsA(d, rule.kind.value) then Result(Null, [WrongType(path, rule.kind.value)], [])
    else
      match d
      case Str(text) =>
        if TextOk(text, rule.pattern, matches) then Result(d, [], [])
        else Result(Null, [NoMatch(path, text, rule.pattern)], [])
      case Dict(entries) =>
        var r := ValidateEntries(d, |entries|, rule, path, matches);
        Result(Dict(r.kept), r.errors + MissingKeys(rule.schema, r.kept, path), r.warnings)
      case List(items) =>
        if rule.itemRule.None? then Result(d, [], [])
        else
          var r := ValidateItems(d, |items|, rule.itemRule.value, path, matches);
          Result(List(r.kept), r.errors, r.warnings)
      case Number(_) => Result(d, [], [])
      case Null => Result(d, [], [])
  }

  /** The first `n` entries of a dictionary. */
  function ValidateEntries(d: Data, n: nat, rule: Rule, path: Path, matches: Matcher): Entries
    requires d.Dict? && n <= |d.entries|
    decreases d, 0, n
  {
    if n == 0 then Entries([], [], [])
    else
      var before, e := ValidateEntries(d, n - 1, rule, path, matches), d.entries[n - 1];
      var own := RuleFor(rule, e.key);
      if own.None? then
        before.(warnings := before.warnings + if rule.schema != [] then [UnknownKey(path, e.key)] else [])
      else
        var r := Validate(e.value, own.value, path + [Key(e.key)], matches);
        Entries(before.kept + if r.cleaned.Null? then [] else [Entry(e.key, r.cleaned)],
                before.errors + r.errors, before.warnings + r.warnings)
  }

  function ValidateItems(d: Data, n: nat, rule: Rule, path: Path, matches: Matcher): Items
    requires d.List? && n <= |d.items|
    decreases d, 0, n
  {
    if n == 0 then Items([], [], [])
    else
      var before := ValidateItems(d, n - 1, rule, path, matches);
      var r := Validate(d.items[n - 1], rule, path + [Index(n - 1)], matches);
      Items(before.kept + if r.cleaned.Null? then [] else [r.cleaned],
            before.errors + r.errors, before.warnings + r.warnings)
  }

  function MissingKeys(schema: seq<Field>, kept: seq<Entry>, path: Path): seq<Problem> {
    if schema == [] then []
    else
      (if schema[0].rule.required && !HasKey(kept, schema[0].key) then [Missing(path, schema[0].key)] else [])
      + MissingKeys(schema[1..], kept, path)
  }

  // ------------------------------------------------------------------ reference definitions

  /** Every rule of the schema carries a type. */
  predicate Typed(rule: Rule)
    decreases rule
  {
    && rule.kind.Some?
    && (forall k :: 0 <= k < |rule.schema| ==> Typed(rule.schema[k].rule))
    && (rule.valuesRule.Some? ==> Typed(rule.valuesRule.value))
    && (rule.itemRule.Some? ==> Typed(rule.itemRule.value))
  }

  predicate RequiredPresent(schema: seq<Field>, entries: seq<Entry>) {
    forall k :: 0 <= k < |schema| && schema[k].rule.required ==> HasKey(entries, schema[k].key)
  }

  /** The data conforms to the rule; unknown keys do not matter. */
  predicate Conforms(d: Data, rule: Rule, matches: Matcher)
    decreases d
  {
    && rule.kind.Some? && IsA(d, rule.kind.value)
    && (d.Str? ==> TextOk(d.text, rule.pattern, matches))
    && (d.Dict? ==>
          && RequiredPresent(rule.schema, d.entries)
          && forall k :: 0 <= k < |d.entries| && RuleFor(rule, d.entries[k].key).Some? ==>
               Conforms(d.entries[k].value, RuleFor(rule, d.entries[k].key).value, matches))
    && (d.List? && rule.itemRule.Some? ==>
          forall k :: 0 <= k < |d.items| ==> Conforms(d.items[k], rule.itemRule.value, matches))
  }

  /** The data without the entries that no rule applies to. */
  function Erase(d: Data, rule: Rule): Data
    decreases d, 1, 0
  {
    match d
    case Dict(entries) => Dict(EraseEntries(d, |entries|, rule))
    case List(items) => if rule.itemRule.None? then d else List(EraseItems(d, |items|, rule.itemRule.value))
    case _ => d
  }

  function EraseEntries(d: Data, n: nat, rule: Rule): seq<Entry>
    requires d.Dict? && n <= |d.entries|
    decreases d, 0, n
  {
    if n == 0 then []
    else
      var e := d.entries[n - 1];
      EraseEntries(d, n - 1, rule)
      + match RuleFor(rule, e.key)
        case None => []
        case Some(own) => [Entry(e.key, Erase(e.value, own))]
  }

  function EraseItems(d: Data, n: nat, rule: Rule): (r: seq<Data>)
    requires d.List? && n <= |d.items|
    ensures |r| == n
    decreases d, 0, n
  {
    if n == 0 then [] else EraseItems(d, n - 1, rule) + [Erase(d.items[n - 1], rule)]
  }

  // ------------------------------------------------------------------ no error iff conforming

  lemma {:induction false} TypedField(schema: seq<Field>, key: string)
    requires forall k :: 0 <= k < |schema| ==> Typed(schema[k].rule)
    ensures FieldRule(schema, key).Some? ==> Typed(FieldRule(schema, key).value)
  {
    if schema != [] { TypedField(schema[1..], key); }
  }

  lemma TypedRuleFor(rule: Rule, key: string)
    requires Typed(rule) && RuleFor(rule, key).Some?
    ensures Typed(RuleFor(rule, key).value)
  {
    TypedField(rule.schema, key);
  }

  lemma {:induction false} SchemaKeyHasRule(schema: seq<Field>, k: nat)
    requires k < |schema|
    ensures FieldRule(schema, schema[k].key).Some?
  {
    if k > 0 { SchemaKeyHasRule(schema[1..], k - 1); }
  }

  lemma {:induction false} MissingKeysIff(schema: seq<Field>, kept: seq<Entry>, path: Path)
    ensures MissingKeys(schema, kept, path) == [] <==> RequiredPresent(schema, kept)
  {
    if schema != [] {
      MissingKeysIff(schema[1..], kept, path);
      assert RequiredPresent(schema, kept) ==> RequiredPresent(schema[1..], kept);
      if RequiredPresent(schema[1..], kept) {
        forall k | 0 < k < |schema| && schema[k].rule.required
          ensures HasKey(kept, schema[k].key)
        {
          assert schema[1..][k - 1] == schema[k];
        }
      }
    }
  }

  /** A typed rule that finds no error keeps the value. */
  lemma NoErrorKeeps(d: Data, rule: Rule, path: Path, matches: Matcher)
    requires rule.kind.Some? && Validate(d, rule, path, matches).errors == []
    ensures !Validate(d, rule, path, matches).cleaned.Null?
  { }

  predicate EntryConforms(e: Entry, rule: Rule, matches: Matcher) {
    RuleFor(rule, e.key).Some? ==> Conforms(e.value, RuleFor(rule, e.key).value, matches)
  }

  /** No error, and the value cleaned by erasing, exactly for conforming data. */
  lemma {:induction false} NoErrorIffConforms(d: Data, rule: Rule, path: Path, matches: Matcher)
    requires Typed(rule)
    ensures Validate(d, rule, path, matches).errors == [] <==> Conforms(d, rule, matches)
    ensures Conforms(d, rule, matches) ==> Validate(d, rule, path, matches).cleaned == Erase(d, rule)
    decreases d, 1, 0
  {
    if IsA(d, rule.kind.value) {
      if d.Dict? {
        DictNoErrorIff(d, rule, path, matches);
      } else if d.List? && rule.itemRule.Some? {
        ItemsNoErrorIff(d, |d.items|, rule.itemRule.value, path, matches);
      }
    }
  }

  lemma {:induction false} DictNoErrorIff(d: Data, rule: Rule, path: Path, matches: Matcher)
    requires Typed(rule) && d.Dict? && IsA(d, rule.kind.value)
    ensures Validate(d, rule, path, matches).errors == [] <==> Conforms(d, rule, matches)
    ensures Conforms(d, rule, matches) ==> Validate(d, rule, path, matches).cleaned == Erase(d, rule)
    decreases d, 0, |d.entries| + 1
  {
    var n := |d.entries|;
    var r := ValidateEntries(d, n, rule, path, matches);
    EntriesNoErrorIff(d, n, rule, path, matches);
    MissingKeysIff(rule.schema, r.kept, path);
    if forall k :: 0 <= k < n ==> EntryConforms(d.entries[k], rule, matches) {
      RequiredSurvive(d, rule);
    }
    assert Conforms(d, rule, matches) <==>
      RequiredPresent(rule.schema, d.entries) && forall k :: 0 <= k < n ==> EntryConforms(d.entries[k], rule, matches);
  }

  /** Erasing keeps the keys of the schema. */
  lemma RequiredSurvive(d: Data, rule: Rule)
    requires d.Dict?
    ensures RequiredPresent(rule.schema, EraseEntries(d, |d.entries|, rule)) <==>
      RequiredPresent(rule.schema, d.entries)
  {
    forall k | 0 <= k < |rule.schema|
      ensures HasKey(EraseEntries(d, |d.entries|, rule), rule.schema[k].key) <==> HasKey(d.entries, rule.schema[k].key)
    {
      SchemaKeyHasRule(rule.schema, k);
      ErasedHasKey(d, |d.entries|, rule, rule.schema[k].key);
      assert d.entries[..|d.entries|] == d.entries;
    }
  }

  lemma {:induction false} ErasedHasKey(d: Data, n: nat, rule: Rule, key: string)
    requires d.Dict? && n <= |d.entries| && RuleFor(rule, key).Some?
    ensures HasKey(EraseEntries(d, n, rule), key) <==> HasKey(d.entries[..n], key)
  {
    if n > 0 {
      var e := d.entries[n - 1];
      ErasedHasKey(d, n - 1, rule, key);
      assert d.entries[..n] == d.entries[..n - 1] + [e];
      HasKeyMore(d.entries[..n - 1], e, key);
      var before := EraseEntries(d, n - 1, rule);
      var own := RuleFor(rule, e.key);
      if own.Some? {
        var kept := Entry(e.key, Erase(e.value, own.value));
        assert EraseEntries(d, n, rule) == before + [kept];
        HasKeyMore(before, kept, key);
      } else {
        assert EraseEntries(d, n, rule) == before;
      }
    }
  }

  lemma HasKeyMore(entries: seq<Entry>, e: Entry, key: string)
    ensures HasKey(entries + [e], key) <==> HasKey(entries, key) || e.key == key
  {
    var more := entries + [e];
    assert more[|entries|] == e;
    if k :| 0 <= k < |entries| && entries[k].key == key { assert more[k].key == key; }
  }

  lemma {:induction false} EntriesNoErrorIff(d: Data, n: nat, rule: Rule, path: Path, matches: Matcher)
    requires Typed(rule) && d.Dict? && n <= |d.entries|
    ensures
      var r := ValidateEntries(d, n, rule, path, matches);
      (r.errors == [] <==> forall k :: 0 <= k < n ==> EntryConforms(d.entries[k], rule, matches)) &&
      (r.errors == [] ==> r.kept == EraseEntries(d, n, rule))
    decreases d, 0, n
  {
    if n > 0 {
      var e := d.entries[n - 1];
      EntriesNoErrorIff(d, n - 1, rule, path, matches);
      var own := RuleFor(rule, e.key);
      if own.Some? {
        TypedRuleFor(rule, e.key);
        NoErrorIffConforms(e.value, own.value, path + [Key(e.key)], matches);
        if Conforms(e.value, own.value, matches) { NoErrorKeeps(e.value, own.value, path + [Key(e.key)], matches); }
      }
    }
  }

  lemma {:induction false} ItemsNoErrorIff(d: Data, n: nat, rule: Rule, path: Path, matches: Matcher)
    requires Typed(rule) && d.List? && n <= |d.items|
    ensures
      var r := ValidateItems(d, n, rule, path, matches);
      (r.errors == [] <==> forall k :: 0 <= k < n ==> Conforms(d.items[k], rule, matches)) &&
      (r.errors == [] ==> r.kept == EraseItems(d, n, rule))
    decreases d, 0, n
  {
    hide Validate, Conforms, Erase;
    if n > 0 {
      var item := d.items[n - 1];
      ItemsNoErrorIff(d, n - 1, rule, path, matches);
      NoErrorIffConforms(item, rule, path + [Index(n - 1)], matches);
      if Conforms(item, rule, matches) { NoErrorKeeps(item, rule, path + [Index(n - 1)], matches); }
    }
  }

  // ------------------------------------------------------------------ validating again

  /** Some rule applies to every entry. */
  predicate Tidy(d: Data, rule: Rule)
    decreases d
  {
    && (d.Dict? ==> forall k :: 0 <= k < |d.entries| ==>
          RuleFor(rule, d.entries[k].key).Some? && Tidy(d.entries[k].value, RuleFor(rule, d.entries[k].key).value))
    && (d.List? && rule.itemRule.Some? ==> forall k :: 0 <= k < |d.items| ==> Tidy(d.items[k], rule.itemRule.value))
  }

  /** Erasing keeps conformance and leaves only entries that a rule applies to. */
  lemma {:induction false} ErasedConforms(d: Data, rule: Rule, matches: Matcher)
    requires Conforms(d, rule, matches)
    ensures Conforms(Erase(d, rule), rule, matches) && Tidy(Erase(d, rule), rule)
    decreases d, 1, 0
  {
    if d.Dict? {
      ErasedEntries(d, |d.entries|, rule, matches);
      RequiredSurvive(d, rule);
    } else if d.List? && rule.itemRule.Some? {
      ErasedItems(d, |d.items|, rule.itemRule.value, matches);
    }
  }

  /** An entry that a rule applies to, conforming and tidy. */
  predicate EntryGood(e: Entry, rule: Rule, matches: Matcher) {
    RuleFor(rule, e.key).Some? &&
    Conforms(e.value, RuleFor(rule, e.key).value, matches) && Tidy(e.value, RuleFor(rule, e.key).value)
  }

  lemma {:induction false} ErasedEntries(d: Data, n: nat, rule: Rule, matches: Matcher)
    requires d.Dict? && n <= |d.entries| && Conforms(d, rule, matches)
    ensures forall k :: 0 <= k < |EraseEntries(d, n, rule)| ==> EntryGood(EraseEntries(d, n, rule)[k], rule, matches)
    decreases d, 0, n
  {
    if n > 0 {
      var e := d.entries[n - 1];
      ErasedEntries(d, n - 1, rule, matches);
      if RuleFor(rule, e.key).Some? {
        ErasedConforms(e.value, RuleFor(rule, e.key).value, matches);
        assert EntryGood(Entry(e.key, Erase(e.value, RuleFor(rule, e.key).value)), rule, matches);
      }
    }
  }

  lemma {:induction false} ErasedItems(d: Data, n: nat, rule: Rule, matches: Matcher)
    requires d.List? && n <= |d.items| && forall k :: 0 <= k < |d.items| ==> Conforms(d.items[k], rule, matches)
    ensures forall k :: 0 <= k < n ==>
      Conforms(EraseItems(d, n, rule)[k], rule, matches) && Tidy(EraseItems(d, n, rule)[k], rule)
    decreases d, 0, n
  {
    if n > 0 {
      ErasedItems(d, n - 1, rule, matches);
      ErasedConforms(d.items[n - 1], rule, matches);
    }
  }

  /** Conforming data whose entries all have a rule is returned as it is, without errors or warnings. */
  lemma {:induction false} TidyIsFixed(d: Data, rule: Rule, path: Path, matches: Matcher)
    requires Conforms(d, rule, matches) && Tidy(d, rule)
    ensures Validate(d, rule, path, matches) == Result(d, [], [])
    decreases d, 1, 0
  {
    if d.Dict? {
      TidyEntries(d, |d.entries|, rule, path, matches);
      assert d.entries[..|d.entries|] == d.entries;
      MissingKeysIff(rule.schema, d.entries, path);
    } else if d.List? && rule.itemRule.Some? {
      TidyItems(d, |d.items|, rule.itemRule.value, path, matches);
      assert d.items[..|d.items|] == d.items;
    }
  }

  lemma {:induction false} TidyEntries(d: Data, n: nat, rule: Rule, path: Path, matches: Matcher)
    requires d.Dict? && n <= |d.entries| && Conforms(d, rule, matches) && Tidy(d, rule)
    ensures ValidateEntries(d, n, rule, path, matches) == Entries(d.entries[..n], [], [])
    decreases d, 0, n
  {
    hide Validate, Erase;
    if n > 0 {
      var e := d.entries[n - 1];
      TidyEntries(d, n - 1, rule, path, matches);
      TidyIsFixed(e.value, RuleFor(rule, e.key).value, path + [Key(e.key)], matches);
      assert d.entries[..n] == d.entries[..n - 1] + [e];
    }
  }

  lemma {:induction false} TidyItems(d: Data, n: nat, rule: Rule, path: Path, matches: Matcher)
    requires d.List? && n <= |d.items|
    requires forall k :: 0 <= k < |d.items| ==> Conforms(d.items[k], rule, matches) && Tidy(d.items[k], rule)
    ensures ValidateItems(d, n, rule, path, matches) == Items(d.items[..n], [], [])
    decreases d, 0, n
  {
    if n > 0 {
      TidyItems(d, n - 1, rule, path, matches);
      TidyIsFixed(d.items[n - 1], rule, path + [Index(n - 1)], matches);
      assert d.items[..n] == d.items[..n - 1] + [d.items[n - 1]];
    }
  }

  /** Validating the cleaned report of conforming data again finds nothing and changes nothing. */
  lemma RevalidationIsClean(d: Data, rule: Rule, path: Path, again: Path, matches: Matcher)
    requires Typed(rule) && Validate(d, rule, path, matches).errors == []
    ensures
      var cleaned := Validate(d, rule, path, matches).cleaned;
      cleaned == Erase(d, rule) && Validate(cleaned, rule, again, matches) == Result(cleaned, [], [])
  {
    NoErrorIffConforms(d, rule, path, matches);
    ErasedConforms(d, rule, matches);
    TidyIsFixed(Erase(d, rule), rule, again, matches);
  }
}
