/** The validator of the hardware report as an object that gathers errors and warnings. */
module ReportValidator {
  import opened ReportRules
  import opened ReportProblems

  /** The state of `_validate_node`: problems and warnings are appended as they are found. */
  class ReportValidator {
    const matches: Matcher
    var errors: seq<Problem>
    var warnings: seq<Warning>

    constructor (matches: Matcher)
      ensures this.matches == matches && errors == [] && warnings == []
    {
      this.matches := matches;
      errors, warnings := [], [];
    }

    method ValidateNode(d: Data, rule: Rule, path: Path) returns (cleaned: Data)
      modifies this
      ensures cleaned == Validate(d, rule, path, matches).cleaned
      ensures errors == old(errors) + Validate(d, rule, path, matches).errors
      ensures warnings == old(warnings) + Validate(d, rule, path, matches).warnings
      decreases d, 1
    {
      if rule.kind.Some? && !IsA(d, rule.kind.value) {
        errors := errors + [WrongType(path, rule.kind.value)];
        return Null;
      }
      cleaned := d;
      if d.Str? {
        if !TextOk(d.text, rule.pattern, matches) {
          errors := errors + [NoMatch(path, d.text, rule.pattern)];
          return Null;
        }
      } else if d.Dict? {
        var kept := ValidateDict(d, rule, path);
        ReportMissing(rule.schema, kept, path);
        cleaned := Dict(kept);
      } else if d.List? && rule.itemRule.Some? {
        var kept := ValidateList(d, rule.itemRule.value, path);
        cleaned := List(kept);
      }
    }

    /**
     * A report is accepted exactly when it conforms to a typed schema; the verdict and the lists start afresh. The
     * lists hold the problems of the places that the rules reach, and the result keeps what survives them.
     */
    method ValidateReport(d: Data, schema: Rule) returns (valid: bool, cleaned: Data)
      modifies this
      ensures errors == Validate(d, schema, [], matches).errors
      ensures warnings == Validate(d, schema, [], matches).warnings
      ensures forall x :: x in errors <==> Found(d, schema, [], x.path, (e: Data, r: Rule) => Causes(e, r, x, matches))
      ensures forall w :: w in warnings <==> Found(d, schema, [], w.path, (e: Data, r: Rule) => Unknown(e, r, w.key))
      ensures Cleans(d, schema, cleaned, matches)
      ensures Typed(schema) ==> (valid <==> Conforms(d, schema, matches))
      ensures Typed(schema) && valid ==> cleaned == Erase(d, schema)
    {
      errors, warnings := [], [];
      cleaned := ValidateNode(d, schema, []);
      valid := errors == [];
      if Typed(schema) { NoErrorIffConforms(d, schema, [], matches); }
      CleanedIs(d, schema, [], matches);
      forall x
        ensures x in errors <==> Found(d, schema, [], x.path, (e: Data, r: Rule) => Causes(e, r, x, matches))
      {
        ErrorsIff(d, schema, [], x, matches);
      }
      forall w
        ensures w in warnings <==> Found(d, schema, [], w.path, (e: Data, r: Rule) => Unknown(e, r, w.key))
      {
        WarningsIff(d, schema, [], w, matches);
      }
    }

    method ValidateDict(d: Data, rule: Rule, path: Path) returns (kept: seq<Entry>)
      requires d.Dict?
      modifies this
      ensures kept == ValidateEntries(d, |d.entries|, rule, path, matches).kept
      ensures errors == old(errors) + ValidateEntries(d, |d.entries|, rule, path, matches).errors
      ensures warnings == old(warnings) + ValidateEntries(d, |d.entries|, rule, path, matches).warnings
      decreases d, 0
    {
      hide Validate, RuleFor;
      kept := [];
      for n := 0 to |d.entries|
        invariant kept == ValidateEntries(d, n, rule, path, matches).kept
        invariant errors == old(errors) + ValidateEntries(d, n, rule, path, matches).errors
        invariant warnings == old(warnings) + ValidateEntries(d, n, rule, path, matches).warnings
      {
        var e := d.entries[n];
        var own := RuleFor(rule, e.key);
        if own.Some? {
          var value := ValidateNode(e.value, own.value, path + [Key(e.key)]);
          if !value.Null? { kept := kept + [Entry(e.key, value)]; }
        } else if rule.schema != [] {
          warnings := warnings + [UnknownKey(path, e.key)];
        }
      }
    }

    method ValidateList(d: Data, rule: Rule, path: Path) returns (kept: seq<Data>)
      requires d.List?
      modifies this
      ensures kept == ValidateItems(d, |d.items|, rule, path, matches).kept
      ensures errors == old(errors) + ValidateItems(d, |d.items|, rule, path, matches).errors
      ensures warnings == old(warnings) + ValidateItems(d, |d.items|, rule, path, matches).warnings
      decreases d, 0
    {
      hide Validate;
      kept := [];
      for n := 0 to |d.items|
        invariant kept == ValidateItems(d, n, rule, path, matches).kept
        invariant errors == old(errors) + ValidateItems(d, n, rule, path, matches).errors
        invariant warnings == old(warnings) + ValidateItems(d, n, rule, path, matches).warnings
      {
        var value := ValidateNode(d.items[n], rule, path + [Index(n)]);
        if !value.Null? { kept := kept + [value]; }
      }
    }

    method ReportMissing(schema: seq<Field>, kept: seq<Entry>, path: Path)
      modifies this`errors
      ensures errors == old(errors) + MissingKeys(schema, kept, path)
    {
      var rest := schema;
      while rest != []
        invariant errors + MissingKeys(rest, kept, path) == old(errors) + MissingKeys(schema, kept, path)
        decreases |rest|
      {
        if rest[0].rule.required && !HasKey(kept, rest[0].key) {
          errors := errors + [Missing(path, rest[0].key)];
        }
        rest := rest[1..];
      }
    }
  }
}
