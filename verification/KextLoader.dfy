/** The loader's objects: bundle dictionaries updated in place, the visited and seen sets, and the sorted list. */
module KextLoader {
  import opened Options
  import opened DarwinVersions
  import opened KextLoading
  import opened KextLoadingTheorems

  class Bundle {
    const info: BundleInfo
    ghost const position: nat
    var range: Option<Range>
    var enabled: bool

    constructor (info: BundleInfo, ghost position: nat)
      ensures this.info == info && this.position == position && range == None && enabled
    {
      this.info := info;
      this.position := position;
      range := None;
      enabled := true;
    }
  }

  ghost predicate Indices(l: Library, order: seq<nat>) {
    forall k: nat {:trigger order[k]} :: k < |order| ==> order[k] < |l.bundles|
  }

  /** Some entry of the order carries the identifier. */
  ghost predicate Carried(l: Library, order: seq<nat>, id: string)
    requires Indices(l, order)
  {
    exists k: nat :: k < |order| && l.bundles[order[k]].identifier == id
  }

  lemma VisitedAppend(l: Library, order: seq<nat>, x: nat, b: nat)
    requires Indices(l, order) && x < |l.bundles| && b < |l.bundles|
    ensures Visited(l, order + [x], b) <==> Visited(l, order, b) || SameKey(l, x, b)
  {
    var more := order + [x];
    forall k | 0 <= k < |more| ensures more[k] == if k < |order| then order[k] else x { }
    if Visited(l, order, b) {
      var k :| 0 <= k < |order| && order[k] < |l.bundles| && SameKey(l, order[k], b);
      assert SameKey(l, more[k], b);
    }
    if SameKey(l, x, b) { assert SameKey(l, more[|order|], b); }
  }

  lemma CarriedAppend(l: Library, order: seq<nat>, x: nat, id: string)
    requires Indices(l, order) && x < |l.bundles|
    ensures Indices(l, order + [x])
    ensures Carried(l, order + [x], id) <==> Carried(l, order, id) || l.bundles[x].identifier == id
  {
    var more := order + [x];
    forall k | 0 <= k < |more| ensures more[k] == if k < |order| then order[k] else x { }
    if Carried(l, order, id) {
      var k: nat :| k < |order| && l.bundles[order[k]].identifier == id;
      assert l.bundles[more[k]].identifier == id;
    }
    if l.bundles[x].identifier == id { assert l.bundles[more[|order|]].identifier == id; }
  }

  lemma EnabledAppend(l: Library, order: seq<nat>, x: nat, k: nat)
    requires Indices(l, order) && x < |l.bundles| && k <= |order|
    ensures Indices(l, order + [x])
    ensures Enabled(l, order + [x], k) <==>
              if k < |order| then Enabled(l, order, k) else !Carried(l, order, l.bundles[x].identifier)
  {
    var more := order + [x];
    forall j: nat | j < |more| ensures more[j] == if j < |order| then order[j] else x { }
    if k < |order| {
      assert Enabled(l, more, k) ==> Enabled(l, order, k) by {
        forall j: nat | j < k ensures more[j] == order[j] { }
      }
    } else if !Enabled(l, more, k) {
      var j: nat :| j < k && l.bundles[more[j]].identifier == l.bundles[more[k]].identifier;
      assert l.bundles[order[j]].identifier == l.bundles[x].identifier;
    } else {
      forall j: nat | j < |order| ensures l.bundles[order[j]].identifier != l.bundles[x].identifier {
        assert more[j] == order[j];
      }
    }
  }

  /** `flag` is the Enabled flag of bundle `b`: no entry for `b` has an earlier one with its identifier. */
  ghost predicate FlagRight(l: Library, order: seq<nat>, b: nat, flag: bool)
    requires Indices(l, order)
  {
    flag <==> forall k: nat {:trigger Enabled(l, order, k)} :: k < |order| && order[k] == b ==> Enabled(l, order, k)
  }

  lemma FlagAppend(l: Library, order: seq<nat>, x: nat, b: nat, flag: bool)
    requires Indices(l, order) && x < |l.bundles| && FlagRight(l, order, b, flag)
    ensures Indices(l, order + [x])
    ensures FlagRight(l, order + [x], b, flag && (b == x ==> !Carried(l, order, l.bundles[x].identifier)))
  {
    var more := order + [x];
    CarriedAppend(l, order, x, "");
    forall k: nat | k < |more|
      ensures Enabled(l, more, k) <==>
        if k < |order| then Enabled(l, order, k) else !Carried(l, order, l.bundles[x].identifier)
    {
      EnabledAppend(l, order, x, k);
    }
    forall k: nat | k < |more| ensures more[k] == if k < |order| then order[k] else x { }
    assert more[|order|] == x;
    if !flag {
      var k: nat :| k < |order| && order[k] == b && !Enabled(l, order, k);
      assert !Enabled(l, more, k);
    }
    if b == x && Carried(l, order, l.bundles[x].identifier) { assert !Enabled(l, more, |order|); }
  }

  function Key(b: BundleInfo): (string, string) { (b.path, b.identifier) }

  /** The visited and seen sets hold what the order holds. */
  ghost predicate Books(l: Library, order: seq<nat>, visited: set<(string, string)>, seen: set<string>) {
    && Indices(l, order)
    && (forall b: nat {:trigger Visited(l, order, b)} :: b < |l.bundles| ==>
          (Key(l.bundles[b]) in visited <==> Visited(l, order, b)))
    && (forall id {:trigger Carried(l, order, id)} :: id in seen <==> Carried(l, order, id))
  }

  lemma BooksAppend(l: Library, order: seq<nat>, x: nat, visited: set<(string, string)>, seen: set<string>)
    requires x < |l.bundles| && Books(l, order, visited, seen)
    ensures Books(l, order + [x], visited + {Key(l.bundles[x])}, seen + {l.bundles[x].identifier})
  {
    CarriedAppend(l, order, x, "");
    forall b: nat | b < |l.bundles|
      ensures Key(l.bundles[b]) in visited + {Key(l.bundles[x])} <==> Visited(l, order + [x], b)
    {
      VisitedAppend(l, order, x, b);
    }
    forall id ensures id in seen + {l.bundles[x].identifier} <==> Carried(l, order + [x], id) {
      CarriedAppend(l, order, x, id);
    }
  }

  class Loader {
    const bundles: seq<Bundle>
    const library: Library
    var sorted: seq<nat>
    var visited: set<(string, string)>
    var seenIdentifiers: set<string>

    ghost predicate Shape() {
      && |bundles| == |library.bundles|
      && (forall i: nat :: i < |bundles| ==> bundles[i].info == library.bundles[i] && bundles[i].position == i)
    }

    ghost function State(): LoadState
      reads this, bundles
    {
      LoadState(sorted, map b: nat | b < |bundles| && bundles[b].range.Some? :: bundles[b].range.value)
    }

    ghost predicate FlagsAgree()
      requires Shape() && Indices(library, sorted)
      reads this, bundles
    {
      forall b: nat {:trigger bundles[b].enabled} :: b < |bundles| ==> FlagRight(library, sorted, b, bundles[b].enabled)
    }

    ghost predicate Valid()
      reads this, bundles
    {
      Shape() && Books(library, sorted, visited, seenIdentifiers) && FlagsAgree()
    }

    constructor (bundles: seq<Bundle>, library: Library)
      requires |bundles| == |library.bundles|
      requires forall i: nat :: i < |bundles| ==>
                 bundles[i].info == library.bundles[i] && bundles[i].position == i && bundles[i].range == None &&
                 bundles[i].enabled
      ensures Valid() && this.bundles == bundles && this.library == library && State() == LoadState([], map[])
    {
      this.bundles := bundles;
      this.library := library;
      sorted := [];
      visited := {};
      seenIdentifiers := {};
    }

    /** `visit`, for every call that ends. `found` is false when a range was read that was never written. */
    method VisitBundle(index: nat, ghost fuel: nat) returns (found: bool)
      requires Valid() && index < |bundles|
      requires !Visit(library, State(), index, fuel).OutOfFuel?
      modifies this, bundles
      ensures found ==> Valid()
      ensures Visit(library, old(State()), index, fuel) == if found then Loaded(State()) else MissingKey
      decreases fuel, 0
    {
      var bundle := bundles[index];
      if bundle.info.stem in library.unload || Key(bundle.info) in visited {
        return true;
      }
      bundle.range := Some(OwnRange(library, index));
      assert State().ranges == old(State()).ranges[index := OwnRange(library, index)];
      found := VisitLibraries(index, fuel - 1);
      if found {
        Append(index);
      }
    }

    /** The loop of `visit` over the libraries of a bundle whose own range has been written. */
    method VisitLibraries(index: nat, ghost fuel: nat) returns (found: bool)
      requires Valid() && index < |bundles| && index in State().ranges
      requires !VisitAll(library, State(), index, library.bundles[index].libraries, fuel).OutOfFuel?
      modifies this, bundles
      ensures found ==> Valid() && index in State().ranges
      ensures VisitAll(library, old(State()), index, library.bundles[index].libraries, fuel)
              == if found then Loaded(State()) else MissingKey
      decreases fuel, 1
    {
      ghost var start := State();
      var libraries := bundles[index].info.libraries;
      for k := 0 to |libraries|
        invariant Valid() && index in State().ranges
        invariant !VisitAll(library, State(), index, libraries[k..], fuel).OutOfFuel?
        invariant VisitAll(library, State(), index, libraries[k..], fuel) ==
          VisitAll(library, start, index, libraries, fuel)
      {
        assert libraries[k..][1..] == libraries[k + 1..];
        var provider := Provider(library, libraries[k]);
        if provider.Some? {
          found := VisitBundle(provider.value, fuel);
          if !found {
            return;
          }
          found := NarrowBy(index, provider.value);
          if !found {
            return;
          }
        }
      }
      found := true;
    }

    /** The two range updates after a dependency was visited. */
    method NarrowBy(index: nat, dependency: nat) returns (found: bool)
      requires Valid() && index < |bundles| && dependency < |bundles| && index in State().ranges
      modifies bundles[index]
      ensures Valid() && sorted == old(sorted) && bundles[index].enabled == old(bundles[index].enabled)
      ensures var r := Narrow(old(State()).ranges, index, dependency);
              found == r.Some? && (found ==> State() == LoadState(sorted, old(State()).ranges[index := r.value]))
    {
      var range := bundles[index].range.value;
      if bundles[dependency].range.Some? {
        bundles[index].range := Some(Meet(range, bundles[dependency].range.value));
        return true;
      }
      found := Less(range.max, TOP) && Less(BOTTOM, range.min);
    }

    /** The tail of `visit`: the overrides, the visited and seen sets, the Enabled flag, and the sorted list. */
    method Append(index: nat)
      requires Valid() && index < |bundles| && index in State().ranges
      modifies this, bundles[index]
      ensures Valid()
      ensures State() == LoadState(old(sorted) + [index],
                                   old(State()).ranges[index := Override(library, index, old(State()).ranges[index])])
    {
      OverrideRange(index);
      Record(index);
    }

    method OverrideRange(index: nat)
      requires Valid() && index < |bundles| && index in State().ranges
      modifies bundles[index]
      ensures Valid()
      ensures State() == LoadState(sorted, old(State()).ranges[
        index := Override(library, index, old(State()).ranges[index])])
    {
      var bundle := bundles[index];
      bundle.range := Some(Override(library, index, bundle.range.value));
    }

    method Record(index: nat)
      requires Valid() && index < |bundles|
      modifies this, bundles[index]
      ensures Valid()
      ensures State() == LoadState(old(sorted) + [index], old(State()).ranges)
    {
      hide Carried, Visited, FlagRight, Enabled;
      var bundle := bundles[index];
      visited := visited + {Key(bundle.info)};
      if bundle.info.identifier in seenIdentifiers {
        bundle.enabled := false;
      } else {
        seenIdentifiers := seenIdentifiers + {bundle.info.identifier};
      }
      sorted := sorted + [index];
      BooksAppend(library, old(sorted), index, old(visited), old(seenIdentifiers));
      assert seenIdentifiers == old(seenIdentifiers) + {bundle.info.identifier};
      forall b: nat | b < |bundles| ensures FlagRight(library, sorted, b, bundles[b].enabled) {
        FlagAppend(library, old(sorted), index, b, old(bundles[b].enabled));
        assert Carried(library, old(sorted), bundle.info.identifier) <==>
          bundle.info.identifier in old(seenIdentifiers);
      }
    }

    /** The loop of `load_kexts` over the bundle list. */
    method LoadAll(ghost fuel: nat) returns (found: bool)
      requires Valid() && State() == LoadState([], map[])
      requires !Load(library, fuel).OutOfFuel?
      modifies this, bundles
      ensures found ==> Valid()
      ensures Load(library, fuel) == if found then Loaded(State()) else MissingKey
    {
      for i := 0 to |bundles|
        invariant Valid()
        invariant LoadFrom(library, State(), i, fuel) == Load(library, fuel)
      {
        found := VisitBundle(i, fuel);
        if !found {
          return;
        }
      }
      found := true;
    }
  }
}
