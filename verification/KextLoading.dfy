/**
 * Load order: `load_kexts` with its nested `visit`, a depth-first topological sort of the bundles that also
 * intersects kernel-version ranges along dependencies. Bundles are named by their index in the bundle list.
 */
module KextLoading {
  import opened Options
  import opened DarwinVersions
  import opened KextCatalog

  /** What a bundle's Info.plist gives; `stem` is the base name of the path without its extension. */
  datatype BundleInfo = BundleInfo(path: string, stem: string, identifier: string, libraries: seq<string>)

  datatype Library = Library(
    bundles: seq<BundleInfo>,
    catalog: Catalog,
    unload: seq<string>,
    target: Version,
    lowest: Version,
    latest: Version)

  /** The bundles appended so far, and the ranges written so far. */
  datatype LoadState = LoadState(order: seq<nat>, ranges: map<nat, Range>)

  /** `MissingKey`: a range was read from a bundle that has none. */
  datatype Outcome = OutOfFuel | MissingKey | Loaded(state: LoadState)

  const TOP := Version(99, 99, 99)
  const BOTTOM := Version(0, 0, 0)

  function Identifiers(l: Library): (ids: seq<string>)
    ensures |ids| == |l.bundles|
  {
    seq(|l.bundles|, i requires 0 <= i < |l.bundles| => l.bundles[i].identifier)
  }

  /** The bundle that the identifier dictionary holds. */
  function Provider(l: Library, identifier: string): (r: Option<nat>)
    ensures r.Some? ==> r.value < |l.bundles|
  {
    LastIndex(Identifiers(l), identifier)
  }

  predicate Loadable(l: Library, b: nat)
    requires b < |l.bundles|
  {
    l.bundles[b].stem !in l.unload
  }

  predicate SameKey(l: Library, a: nat, b: nat)
    requires a < |l.bundles| && b < |l.bundles|
  {
    l.bundles[a].path == l.bundles[b].path && l.bundles[a].identifier == l.bundles[b].identifier
  }

  predicate Visited(l: Library, order: seq<nat>, b: nat)
    requires b < |l.bundles|
  {
    exists k :: 0 <= k < |order| && order[k] < |l.bundles| && SameKey(l, order[k], b)
  }

  /** The range before dependencies are considered; catalogue index 0 is not looked up. */
  function OwnRange(l: Library, b: nat): Range
    requires b < |l.bundles|
  {
    match Requirement(l.catalog, l.bundles[b].stem)
    case Some(k) => l.catalog[k].range
    case None => Range(l.lowest, l.latest)
  }

  /** The range of `b` after looking at its dependency `d`, whose range may never have been written. */
  function Narrow(ranges: map<nat, Range>, b: nat, d: nat): Option<Range>
    requires b in ranges
  {
    if d in ranges then Some(Meet(ranges[b], ranges[d]))
    else if Less(ranges[b].max, TOP) && Less(BOTTOM, ranges[b].min) then Some(ranges[b])
    else None
  }

  predicate Overridden(l: Library, b: nat)
    requires b < |l.bundles|
  {
    l.bundles[b].stem == "AirPortBrcm4360_Injector" || l.bundles[b].stem == "AirportItlwm"
  }

  /** The two name-specific overrides; the second replaces the two-digit major version by that of the target. */
  function Override(l: Library, b: nat, r: Range): Range
    requires b < |l.bundles|
  {
    if l.bundles[b].stem == "AirPortBrcm4360_Injector" then
      Range(r.min, Version(19, 99, 99))
    else if l.bundles[b].stem == "AirportItlwm" then
      Range(Version(l.target.major, r.min.minor, r.min.patch), Version(l.target.major, r.max.minor, r.max.patch))
    else r
  }

  /** Bundle `d` is the last one with the identifier. */
  predicate LastWith(l: Library, identifier: string, d: nat) {
    d < |l.bundles| && l.bundles[d].identifier == identifier &&
    forall later :: d < later < |l.bundles| ==> l.bundles[later].identifier != identifier
  }

  lemma ProviderIff(l: Library, identifier: string, d: nat)
    ensures Provider(l, identifier) == Some(d) <==> LastWith(l, identifier, d)
  {
    LastIndexIsLast(Identifiers(l), identifier);
    forall i | 0 <= i < |l.bundles|
      ensures Identifiers(l)[i] == l.bundles[i].identifier
    { }
    if LastWith(l, identifier, d) { assert Identifiers(l)[d] in Identifiers(l); }
  }

  /**
   * The own range is that of the last kext called like the bundle's file, unless that is the first of the catalogue.
   */
  lemma OwnRangeIs(l: Library, b: nat)
    requires b < |l.bundles|
    ensures forall k: nat {:trigger LastCalled(l.catalog, l.bundles[b].stem, k)} ::
      LastCalled(l.catalog, l.bundles[b].stem, k) && k > 0 ==> OwnRange(l, b) == l.catalog[k].range
    ensures (forall k: nat {:trigger LastCalled(l.catalog, l.bundles[b].stem, k)} ::
               LastCalled(l.catalog, l.bundles[b].stem, k) ==> k == 0) ==> OwnRange(l, b) == Range(l.lowest, l.latest)
  {
    var stem := l.bundles[b].stem;
    forall k: nat | LastCalled(l.catalog, stem, k) && k > 0
      ensures OwnRange(l, b) == l.catalog[k].range
    {
      RequirementIsLastCalled(l.catalog, stem, k);
    }
    var r := Requirement(l.catalog, stem);
    if r.Some? { RequirementIsLastCalled(l.catalog, stem, r.value); }
  }

  /**
   * The overrides: one bundle ends with the kernels of macOS 10.15, one accepts kernels of the target's major version
   * only, and all others keep their range.
   */
  lemma OverrideIs(l: Library, b: nat, r: Range, v: Version)
    requires b < |l.bundles|
    ensures l.bundles[b].stem == "AirPortBrcm4360_Injector" ==>
      (Override(l, b, r).Accepts(v) <==> AtMost(r.min, v) && v.major <= 19 && (v.major == 19 ==> v.minor <= 99) &&
                                         (v.major == 19 && v.minor == 99 ==> v.patch <= 99))
    ensures l.bundles[b].stem == "AirportItlwm" ==>
      (Override(l, b, r).Accepts(v) <==>
         v.major == l.target.major &&
         (v.minor > r.min.minor || (v.minor == r.min.minor && v.patch >= r.min.patch)) &&
         (v.minor < r.max.minor || (v.minor == r.max.minor && v.patch <= r.max.patch)))
    ensures !Overridden(l, b) ==> Override(l, b, r) == r
  { }

  /** A dependency without a range leaves the range alone if that lies within the two defaults, and raises if not. */
  lemma NarrowIs(ranges: map<nat, Range>, b: nat, d: nat, v: Version)
    requires b in ranges
    ensures d in ranges ==>
      Narrow(ranges, b, d).Some? &&
      (Narrow(ranges, b, d).value.Accepts(v) <==> ranges[b].Accepts(v) && ranges[d].Accepts(v))
    ensures d !in ranges && Less(ranges[b].max, Version(99, 99, 99)) && Less(Version(0, 0, 0), ranges[b].min) ==>
      Narrow(ranges, b, d) == Some(ranges[b])
    ensures d !in ranges && !(Less(ranges[b].max, Version(99, 99, 99)) && Less(Version(0, 0, 0), ranges[b].min)) ==>
      Narrow(ranges, b, d) == None
  {
    if d in ranges { MeetAccepts(ranges[b], ranges[d], v); }
  }

  // ------------------------------------------------------------------ what a visit computes

  function Visit(l: Library, st: LoadState, b: nat, fuel: nat): (o: Outcome)
    requires b < |l.bundles|
    ensures o.Loaded? ==> st.ranges.Keys <= o.state.ranges.Keys
    decreases fuel, 0
  {
    if !Loadable(l, b) || Visited(l, st.order, b) then Loaded(st)
    else if fuel == 0 then OutOfFuel
    else
      var own := st.(ranges := st.ranges[b := OwnRange(l, b)]);
      match VisitAll(l, own, b, l.bundles[b].libraries, fuel - 1)
      case Loaded(u) => Loaded(LoadState(u.order + [b], u.ranges[b := Override(l, b, u.ranges[b])]))
      case OutOfFuel => OutOfFuel
      case MissingKey => MissingKey
  }

  function VisitAll(l: Library, st: LoadState, b: nat, libraries: seq<string>, fuel: nat): (o: Outcome)
    requires b < |l.bundles| && b in st.ranges
    ensures o.Loaded? ==> st.ranges.Keys <= o.state.ranges.Keys
    decreases fuel, 1, |libraries|
  {
    if libraries == [] then Loaded(st)
    else
      match Provider(l, libraries[0])
      case None => VisitAll(l, st, b, libraries[1..], fuel)
      case Some(d) =>
        match Visit(l, st, d, fuel)
        case OutOfFuel => OutOfFuel
        case MissingKey => MissingKey
        case Loaded(u) =>
          match Narrow(u.ranges, b, d)
          case None => MissingKey
          case Some(r) => VisitAll(l, u.(ranges := u.ranges[b := r]), b, libraries[1..], fuel)
  }

  function LoadFrom(l: Library, st: LoadState, i: nat, fuel: nat): Outcome
    requires i <= |l.bundles|
    decreases |l.bundles| - i
  {
    if i == |l.bundles| then Loaded(st)
    else
      match Visit(l, st, i, fuel)
      case OutOfFuel => OutOfFuel
      case MissingKey => MissingKey
      case Loaded(u) => LoadFrom(l, u, i + 1, fuel)
  }

  function Load(l: Library, fuel: nat): Outcome {
    LoadFrom(l, LoadState([], map[]), 0, fuel)
  }

  // ------------------------------------------------------------------ dependencies

  ghost predicate DependsOn(l: Library, b: nat, d: nat) {
    && b < |l.bundles| && d < |l.bundles| && Loadable(l, b) && Loadable(l, d)
    && exists id :: id in l.bundles[b].libraries && Provider(l, id) == Some(d)
  }

  /** Bundles are told apart by path and identifier, as the visited set does. */
  ghost predicate DistinctKeys(l: Library) {
    forall a: nat, b: nat {:trigger SameKey(l, a, b)} ::
      a < |l.bundles| && b < |l.bundles| && SameKey(l, a, b) ==> a == b
  }

  ghost predicate Inside(r: Range) {
    Less(r.max, TOP) && Less(BOTTOM, r.min)
  }

  /** Own ranges lie strictly between the two defaults, so no missing range is ever read. */
  ghost predicate RangesInside(l: Library) {
    forall b: nat {:trigger OwnRange(l, b)} :: b < |l.bundles| ==> Inside(OwnRange(l, b))
  }

  /** Dependencies have lower rank. */
  ghost predicate Ranked(l: Library, rank: seq<nat>) {
    && |rank| == |l.bundles|
    && forall b: nat, d: nat {:trigger DependsOn(l, b, d)} :: DependsOn(l, b, d) ==> rank[d] < rank[b]
  }

  ghost predicate DependsInto(l: Library, b: nat, k: set<nat>) {
    exists d :: d in k && DependsOn(l, b, d)
  }

  /** A set of loadable bundles each of which depends on one of the set. In a finite library: a cycle. */
  ghost predicate Knot(l: Library, k: set<nat>) {
    k != {} && forall b {:trigger DependsInto(l, b, k)} :: b in k ==> DependsInto(l, b, k)
  }

  // ------------------------------------------------------------------ what the sort keeps

  /** Every dependency of the bundle at position `k` stands before it. */
  ghost predicate DependenciesBefore(l: Library, order: seq<nat>, k: nat)
    requires k < |order|
  {
    forall d {:trigger DependsOn(l, order[k], d)} :: DependsOn(l, order[k], d) ==> d in order[..k]
  }

  /** `m` accepts the versions that the own range of `b` and the ranges of all its dependencies accept. */
  ghost predicate MeetOf(l: Library, ranges: map<nat, Range>, b: nat, m: Range)
    requires b < |l.bundles|
  {
    forall v: Version :: m.Accepts(v) <==>
      OwnRange(l, b).Accepts(v)
      && forall d {:trigger DependsOn(l, b, d)} :: DependsOn(l, b, d) ==> d in ranges && ranges[d].Accepts(v)
  }

  ghost predicate Settled(l: Library, ranges: map<nat, Range>, b: nat)
    requires b < |l.bundles|
  {
    b in ranges && exists m :: MeetOf(l, ranges, b, m) && ranges[b] == Override(l, b, m)
  }

  ghost predicate Sorted(l: Library, st: LoadState) {
    && (forall b :: b in st.ranges ==> b < |l.bundles| && Loadable(l, b))
    && (forall k: nat :: k < |st.order| ==> st.order[k] < |l.bundles| && Loadable(l, st.order[k]))
    && (forall j, k :: 0 <= j < k < |st.order| ==> st.order[j] != st.order[k])
    && (forall k: nat {:trigger DependenciesBefore(l, st.order, k)} :: k < |st.order| ==>
      DependenciesBefore(l, st.order, k))
    && (forall b {:trigger Settled(l, st.ranges, b)} :: b in st.order ==> Settled(l, st.ranges, b))
  }

  lemma MeetAccepts(a: Range, b: Range, v: Version)
    ensures Meet(a, b).Accepts(v) <==> a.Accepts(v) && b.Accepts(v)
  { }

  ghost predicate SameRange(r: map<nat, Range>, u: map<nat, Range>, x: nat) {
    (x in r <==> x in u) && (x in r ==> r[x] == u[x])
  }

  /** Writing ranges outside the sorted part leaves it settled. */
  lemma SortedFrame(l: Library, st: LoadState, ranges: map<nat, Range>)
    requires Sorted(l, st)
    requires forall x {:trigger x in ranges} :: x in ranges ==> x < |l.bundles| && Loadable(l, x)
    requires forall x {:trigger SameRange(st.ranges, ranges, x)} :: x in st.order ==> SameRange(st.ranges, ranges, x)
    ensures Sorted(l, st.(ranges := ranges))
  {
    forall b | b in st.order ensures Settled(l, ranges, b) {
      var k :| 0 <= k < |st.order| && st.order[k] == b;
      assert DependenciesBefore(l, st.order, k);
      assert Settled(l, st.ranges, b) && SameRange(st.ranges, ranges, b);
      forall d | DependsOn(l, b, d) ensures SameRange(st.ranges, ranges, d) {
        assert d in st.order[..k];
        assert d in st.order;
      }
      var m :| MeetOf(l, st.ranges, b, m) && st.ranges[b] == Override(l, b, m);
      assert MeetOf(l, ranges, b, m);
    }
    forall k: nat | k < |st.order| ensures DependenciesBefore(l, st.(ranges := ranges).order, k) {
      assert DependenciesBefore(l, st.order, k);
    }
  }

  ghost predicate LibraryAccepts(l: Library, ranges: map<nat, Range>, id: string, v: Version) {
    var d := Provider(l, id);
    d.Some? && Loadable(l, d.value) ==> d.value in ranges && ranges[d.value].Accepts(v)
  }

  ghost predicate LibrarySorted(l: Library, order: seq<nat>, id: string) {
    var d := Provider(l, id);
    d.Some? && Loadable(l, d.value) ==> d.value in order
  }

  lemma VisitedIsMember(l: Library, order: seq<nat>, b: nat)
    requires DistinctKeys(l) && b < |l.bundles|
    requires forall k: nat :: k < |order| ==> order[k] < |l.bundles|
    ensures Visited(l, order, b) <==> b in order
  {
    if b in order {
      var k :| 0 <= k < |order| && order[k] == b;
      assert SameKey(l, order[k], b);
    }
  }

  /**
   * What a stretch of visits below rank `top` may touch: bundles already sorted and bundles of higher rank keep their
   * ranges.
   */
  ghost predicate Extends(l: Library, rank: seq<nat>, top: int, st: LoadState, u: LoadState)
    requires |rank| == |l.bundles|
  {
    && Sorted(l, u)
    && st.order <= u.order
    && (forall x: nat {:trigger x in u.order} :: x in u.order && x < |l.bundles| ==> x in st.order || rank[x] <= top)
    && (forall x: nat {:trigger SameRange(st.ranges, u.ranges, x)} ::
          x in st.order || (x < |l.bundles| && top < rank[x]) ==> SameRange(st.ranges, u.ranges, x))
  }

  /** What visiting the libraries of `b` gives: each is sorted, and the range of `b` is met with theirs. */
  ghost predicate LibrariesMet(l: Library, b: nat, libraries: seq<string>, before: Range, u: LoadState) {
    && b in u.ranges
    && (forall id {:trigger LibrarySorted(l, u.order, id)} :: id in libraries ==> LibrarySorted(l, u.order, id))
    && (forall v: Version :: u.ranges[b].Accepts(v) <==>
          before.Accepts(v) && forall id {:trigger LibraryAccepts(l, u.ranges, id, v)} :: id in libraries ==>
          LibraryAccepts(l, u.ranges, id, v))
  }

  lemma {:induction false} VisitSorts(l: Library, rank: seq<nat>, st: LoadState, b: nat, fuel: nat)
      returns (u: LoadState)
    requires DistinctKeys(l) && RangesInside(l) && Ranked(l, rank) && Sorted(l, st)
    requires b < |l.bundles| && rank[b] < fuel
    ensures Visit(l, st, b, fuel) == Loaded(u)
    ensures Extends(l, rank, rank[b], st, u)
    ensures Loadable(l, b) ==> b in u.order
    decreases fuel, 0
  {
    hide DistinctKeys, Override, SameKey;
    VisitedIsMember(l, st.order, b);
    if !Loadable(l, b) || b in st.order {
      u := st;
    } else {
      var own := LoadState(st.order, st.ranges[b := OwnRange(l, b)]);
      SortedFrame(l, st, own.ranges);
      var w := VisitAllSorts(l, rank, own, b, l.bundles[b].libraries, fuel - 1);
      u := LoadState(w.order + [b], w.ranges[b := Override(l, b, w.ranges[b])]);
      FinishBundle(l, b, w, u);
      forall x: nat | x in st.order || (x < |l.bundles| && rank[b] < rank[x])
        ensures SameRange(st.ranges, u.ranges, x)
      {
        assert SameRange(own.ranges, w.ranges, x);
      }
    }
  }

  /** Appending a bundle whose libraries are all sorted and met keeps the order sorted. */
  lemma FinishBundle(l: Library, b: nat, w: LoadState, u: LoadState)
    requires b < |l.bundles| && Loadable(l, b) && b !in w.order
    requires Sorted(l, w)
    requires LibrariesMet(l, b, l.bundles[b].libraries, OwnRange(l, b), w)
    requires u == LoadState(w.order + [b], w.ranges[b := Override(l, b, w.ranges[b])])
    ensures Sorted(l, u)
  {
    SortedFrame(l, w, u.ranges);
    var n := |w.order|;
    forall k: nat | k < |u.order| ensures DependenciesBefore(l, u.order, k) {
      assert u.order[..k] == w.order[..k];
      if k < n {
        assert DependenciesBefore(l, w.order, k);
      } else {
        forall d | DependsOn(l, b, d) ensures d in w.order { DependencySorted(l, b, d, w); }
        assert w.order[..n] == w.order;
      }
    }
    RangeIsMeet(l, b, w, u.ranges);
    assert Settled(l, u.ranges, b);
    forall x | x in u.order ensures Settled(l, u.ranges, x) {
      if x != b { assert Settled(l, w.(ranges := u.ranges).ranges, x); }
    }
  }

  lemma DependencySorted(l: Library, b: nat, d: nat, w: LoadState)
    requires DependsOn(l, b, d) && LibrariesMet(l, b, l.bundles[b].libraries, OwnRange(l, b), w)
    ensures d in w.order
  {
    var id :| id in l.bundles[b].libraries && Provider(l, id) == Some(d);
    assert LibrarySorted(l, w.order, id);
  }

  lemma RangeIsMeet(l: Library, b: nat, w: LoadState, ranges: map<nat, Range>)
    requires b < |l.bundles| && Loadable(l, b) && b !in w.order
    requires LibrariesMet(l, b, l.bundles[b].libraries, OwnRange(l, b), w)
    requires ranges == w.ranges[b := Override(l, b, w.ranges[b])]
    ensures MeetOf(l, ranges, b, w.ranges[b])
  {
    forall v: Version
      ensures w.ranges[b].Accepts(v) <==>
        (OwnRange(l, b).Accepts(v)
         && forall d {:trigger DependsOn(l, b, d)} :: DependsOn(l, b, d) ==> d in ranges && ranges[d].Accepts(v))
    {
      if w.ranges[b].Accepts(v) {
        forall d | DependsOn(l, b, d) ensures d in ranges && ranges[d].Accepts(v) {
          DependencySorted(l, b, d, w);
          var id :| id in l.bundles[b].libraries && Provider(l, id) == Some(d);
          assert LibraryAccepts(l, w.ranges, id, v);
        }
      } else if OwnRange(l, b).Accepts(v) {
        var id :| id in l.bundles[b].libraries && !LibraryAccepts(l, w.ranges, id, v);
        var d := Provider(l, id).value;
        assert DependsOn(l, b, d);
        DependencySorted(l, b, d, w);
      }
    }
  }

  lemma LibrariesMetMore(l: Library, b: nat, libraries: seq<string>, before: Range, narrowed: Range, u: LoadState)
    requires libraries != []
    requires LibrariesMet(l, b, libraries[1..], narrowed, u)
    requires LibrarySorted(l, u.order, libraries[0])
    requires forall v: Version :: narrowed.Accepts(v) <==>
      before.Accepts(v) && LibraryAccepts(l, u.ranges, libraries[0], v)
    ensures LibrariesMet(l, b, libraries, before, u)
  {
    assert libraries == [libraries[0]] + libraries[1..];
    forall v: Version
      ensures u.ranges[b].Accepts(v) <==>
        (before.Accepts(v) && forall id {:trigger LibraryAccepts(l, u.ranges, id, v)} :: id in libraries ==>
        LibraryAccepts(l, u.ranges, id, v))
    {
      assert narrowed.Accepts(v) <==> before.Accepts(v) && LibraryAccepts(l, u.ranges, libraries[0], v);
    }
  }

  /** After visiting the dependency `d`, its range is written and narrows that of `b`. */
  lemma NarrowSorts(l: Library, rank: seq<nat>, st: LoadState, b: nat, d: nat, w: LoadState) returns (next: LoadState)
    requires Ranked(l, rank) && DependsOn(l, b, d)
    requires b !in st.order && b in st.ranges && Inside(st.ranges[b])
    requires Extends(l, rank, rank[d], st, w) && d in w.order
    ensures b in w.ranges && d in w.ranges
    ensures Narrow(w.ranges, b, d) == Some(Meet(st.ranges[b], w.ranges[d]))
    ensures next == LoadState(w.order, w.ranges[b := Meet(st.ranges[b], w.ranges[d])])
    ensures Sorted(l, next) && b !in next.order && Inside(next.ranges[b])
    ensures next.ranges[d] == w.ranges[d]
  {
    assert rank[d] < rank[b];
    assert SameRange(st.ranges, w.ranges, b);
    assert Settled(l, w.ranges, d);
    next := LoadState(w.order, w.ranges[b := Meet(st.ranges[b], w.ranges[d])]);
    SortedFrame(l, w, next.ranges);
  }

  lemma {:induction false} VisitAllSorts(l: Library, rank: seq<nat>, st: LoadState, b: nat, libraries: seq<string>,
                                         fuel: nat)
      returns (u: LoadState)
    requires DistinctKeys(l) && RangesInside(l) && Ranked(l, rank) && Sorted(l, st)
    requires b < |l.bundles| && Loadable(l, b) && b !in st.order && b in st.ranges && Inside(st.ranges[b])
    requires forall id :: id in libraries ==> id in l.bundles[b].libraries
    requires rank[b] <= fuel
    ensures VisitAll(l, st, b, libraries, fuel) == Loaded(u)
    ensures Sorted(l, u) && st.order <= u.order && b !in u.order
    ensures forall x: nat {:trigger x in u.order} :: x in u.order && x < |l.bundles| ==>
      x in st.order || rank[x] < rank[b]
    ensures forall x: nat {:trigger SameRange(st.ranges, u.ranges, x)} ::
              x in st.order || (x < |l.bundles| && rank[b] <= rank[x] && x != b) ==> SameRange(st.ranges, u.ranges, x)
    ensures LibrariesMet(l, b, libraries, st.ranges[b], u)
    decreases fuel, 1, |libraries|
  {
    hide DistinctKeys, RangesInside, Provider;
    if libraries == [] {
      u := st;
    } else {
      var id, rest := libraries[0], libraries[1..];
      assert id in libraries;
      match Provider(l, id)
      case None =>
        u := VisitAllSorts(l, rank, st, b, rest, fuel);
        LibrariesMetMore(l, b, libraries, st.ranges[b], st.ranges[b], u);
      case Some(d) =>
        if Loadable(l, d) {
          assert DependsOn(l, b, d);
          var w := VisitSorts(l, rank, st, d, fuel);
          var next := NarrowSorts(l, rank, st, b, d, w);
          u := VisitAllSorts(l, rank, next, b, rest, fuel);
          StepRejoins(l, rank, st, b, id, d, w, next, u);
          LibrariesMetMore(l, b, libraries, st.ranges[b], next.ranges[b], u);
        } else {
          assert d !in st.ranges;
          assert st.(ranges := st.ranges[b := st.ranges[b]]) == st;
          u := VisitAllSorts(l, rank, st, b, rest, fuel);
          LibrariesMetMore(l, b, libraries, st.ranges[b], st.ranges[b], u);
        }
    }
  }

  /** The facts that carry over from one library to the rest. */
  lemma StepRejoins(l: Library, rank: seq<nat>, st: LoadState, b: nat, id: string, d: nat, w: LoadState,
                    next: LoadState, u: LoadState)
    requires Ranked(l, rank) && DependsOn(l, b, d) && Provider(l, id) == Some(d)
    requires b in st.ranges && d in w.ranges && d in w.order && b !in w.order
    requires Extends(l, rank, rank[d], st, w)
    requires next == LoadState(w.order, w.ranges[b := Meet(st.ranges[b], w.ranges[d])])
    requires next.order <= u.order && SameRange(next.ranges, u.ranges, d)
    requires forall x: nat {:trigger SameRange(next.ranges, u.ranges, x)} ::
               x in next.order || (x < |l.bundles| && rank[b] <= rank[x] && x != b) ==>
               SameRange(next.ranges, u.ranges, x)
    ensures LibrarySorted(l, u.order, id)
    ensures forall v: Version :: next.ranges[b].Accepts(v) <==>
      st.ranges[b].Accepts(v) && LibraryAccepts(l, u.ranges, id, v)
    ensures forall x: nat {:trigger SameRange(st.ranges, u.ranges, x)} ::
              x in st.order || (x < |l.bundles| && rank[b] <= rank[x] && x != b) ==> SameRange(st.ranges, u.ranges, x)
  {
    assert d in u.order;
    forall v: Version ensures next.ranges[b].Accepts(v) <==>
      st.ranges[b].Accepts(v) && LibraryAccepts(l, u.ranges, id, v) {
      MeetAccepts(st.ranges[b], w.ranges[d], v);
    }
    forall x: nat | x in st.order || (x < |l.bundles| && rank[b] <= rank[x] && x != b)
      ensures SameRange(st.ranges, u.ranges, x)
    {
      assert rank[d] < rank[b];
      assert x in st.order ==> x in w.order;
      assert SameRange(st.ranges, w.ranges, x) && SameRange(next.ranges, u.ranges, x);
    }
  }

  // ------------------------------------------------------------------ the whole library

  /** Every loadable bundle, and no other, is in the order. */
  ghost predicate Complete(l: Library, st: LoadState) {
    forall b: nat :: b < |l.bundles| ==> (b in st.order <==> Loadable(l, b))
  }

  ghost predicate RanksBelow(l: Library, rank: seq<nat>, fuel: nat) {
    Ranked(l, rank) && forall b :: 0 <= b < |rank| ==> rank[b] < fuel
  }

  lemma {:induction false} LoadFromSorts(l: Library, rank: seq<nat>, st: LoadState, i: nat, fuel: nat)
      returns (u: LoadState)
    requires DistinctKeys(l) && RangesInside(l) && RanksBelow(l, rank, fuel)
    requires i <= |l.bundles| && Sorted(l, st)
    requires forall b: nat :: b < i && Loadable(l, b) ==> b in st.order
    ensures LoadFrom(l, st, i, fuel) == Loaded(u)
    ensures Sorted(l, u) && Complete(l, u)
    decreases |l.bundles| - i
  {
    hide DistinctKeys, RangesInside, Visit;
    if i == |l.bundles| {
      u := st;
    } else {
      var w := VisitSorts(l, rank, st, i, fuel);
      u := LoadFromSorts(l, rank, w, i + 1, fuel);
    }
  }

  /** Loading an acyclic library ends, with every loadable bundle exactly once and after all it depends on. */
  lemma LoadSorts(l: Library, rank: seq<nat>, fuel: nat) returns (u: LoadState)
    requires DistinctKeys(l) && RangesInside(l) && RanksBelow(l, rank, fuel)
    ensures Load(l, fuel) == Loaded(u)
    ensures Sorted(l, u) && Complete(l, u)
  {
    u := LoadFromSorts(l, rank, LoadState([], map[]), 0, fuel);
  }

  lemma SortedOrderIsTopological(l: Library, u: LoadState, j: nat, k: nat)
    requires Sorted(l, u) && Complete(l, u)
    requires j < |u.order| && k < |u.order| && DependsOn(l, u.order[k], u.order[j])
    ensures j < k
  {
    assert DependenciesBefore(l, u.order, k);
    var i :| 0 <= i < k && u.order[i] == u.order[j];
  }
}
