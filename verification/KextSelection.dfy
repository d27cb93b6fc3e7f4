/**
 * Kext selection: the depth-first closure `check_kext`, which may run forever when conflict groups
 * un-mark kexts that are still being processed, and `uncheck_kext`.
 * A state is the set of indices whose kext is checked.
 */
module KextSelection {
  import opened Options
  import opened DarwinVersions
  import opened KextCatalog

  /** The arguments that all nested calls share. */
  datatype Query = Query(target: Version, allowUnsupported: bool)

  predicate Eligible(c: Catalog, q: Query, i: nat)
    requires i < |c|
  {
    q.allowUnsupported || c[i].range.Accepts(q.target)
  }

  // ------------------------------------------------------------------ what a call computes

  /** How far a call with bounded nesting gets. */
  datatype Outcome = OutOfFuel | Done(checked: set<nat>)

  /**
   * The state after `check_kext(i)`, or OutOfFuel if the calls nest deeper than `fuel`.
   * A run of the source terminates exactly when some fuel gives Done.
   */
  function Check(c: Catalog, q: Query, s: set<nat>, i: nat, fuel: nat): Outcome
    requires i < |c|
    decreases fuel, 0
  {
    if i in s || !Eligible(c, q, i) then Done(s)
    else if fuel == 0 then OutOfFuel
    else
      match CheckAll(c, q, s + {i}, c[i].requirements, fuel - 1)
      case OutOfFuel => OutOfFuel
      case Done(r) => Done(r - RivalsOf(c, i))
  }

  function CheckAll(c: Catalog, q: Query, s: set<nat>, names: seq<string>, fuel: nat): Outcome
    decreases fuel, 1, |names|
  {
    if names == [] then Done(s)
    else
      var rest := names[1..];
      match Requirement(c, names[0])
      case None => CheckAll(c, q, s, rest, fuel)
      case Some(j) =>
        match Check(c, q, s, j, fuel)
        case OutOfFuel => OutOfFuel
        case Done(r) => CheckAll(c, q, r, rest, fuel)
  }

  function Uncheck(c: Catalog, s: set<nat>, i: nat): set<nat>
    requires i < |c|
  {
    s - {i} - (set j: nat | j < |c| && c[j].name in c[i].requirements && !c[j].required)
  }

  lemma {:induction false} CheckFuelMonotone(c: Catalog, q: Query, s: set<nat>, i: nat, f: nat, g: nat)
    requires i < |c| && f <= g
    requires Check(c, q, s, i, f).Done?
    ensures Check(c, q, s, i, g) == Check(c, q, s, i, f)
    decreases f, 0
  {
    if i !in s && Eligible(c, q, i) {
      CheckAllFuelMonotone(c, q, s + {i}, c[i].requirements, f - 1, g - 1);
    }
  }

  lemma {:induction false} CheckAllFuelMonotone(c: Catalog, q: Query, s: set<nat>, names: seq<string>, f: nat, g: nat)
    requires f <= g
    requires CheckAll(c, q, s, names, f).Done?
    ensures CheckAll(c, q, s, names, g) == CheckAll(c, q, s, names, f)
    decreases f, 1, |names|
  {
    if names != [] {
      match Requirement(c, names[0])
      case None => CheckAllFuelMonotone(c, q, s, names[1..], f, g);
      case Some(j) =>
        CheckFuelMonotone(c, q, s, j, f, g);
        CheckAllFuelMonotone(c, q, Check(c, q, s, j, f).checked, names[1..], f, g);
    }
  }

  // ------------------------------------------------------------------ one kext per conflict group

  /** No two kexts of the set are rivals. */
  ghost predicate OnePerGroup(c: Catalog, s: set<nat>) {
    forall i, j {:trigger Rivals(c, i, j)} :: i in s && j in s && i < |c| && j < |c| ==> !Rivals(c, i, j)
  }

  /** Rivals are both checked only in the groups of `busy`, those of the calls still on the stack. */
  ghost predicate OnePerIdleGroup(c: Catalog, s: set<nat>, busy: set<Option<string>>) {
    forall i, j {:trigger Rivals(c, i, j)} :: i in s && j in s && i < |c| && j < |c| && Rivals(c, i, j) ==>
      c[i].group in busy
  }

  lemma {:induction false} CheckKeepsIdleGroups(c: Catalog, q: Query, s: set<nat>, i: nat, fuel: nat,
                                                busy: set<Option<string>>)
    requires i < |c| && OnePerIdleGroup(c, s, busy)
    requires Check(c, q, s, i, fuel).Done?
    ensures OnePerIdleGroup(c, Check(c, q, s, i, fuel).checked, busy)
    decreases fuel, 0
  {
    if i !in s && Eligible(c, q, i) {
      CheckAllKeepsIdleGroups(c, q, s + {i}, c[i].requirements, fuel - 1, busy + {c[i].group});
    }
  }

  lemma {:induction false} CheckAllKeepsIdleGroups(c: Catalog, q: Query, s: set<nat>, names: seq<string>, fuel: nat,
                                                   busy: set<Option<string>>)
    requires OnePerIdleGroup(c, s, busy)
    requires CheckAll(c, q, s, names, fuel).Done?
    ensures OnePerIdleGroup(c, CheckAll(c, q, s, names, fuel).checked, busy)
    decreases fuel, 1, |names|
  {
    if names != [] {
      match Requirement(c, names[0])
      case None => CheckAllKeepsIdleGroups(c, q, s, names[1..], fuel, busy);
      case Some(j) =>
        CheckKeepsIdleGroups(c, q, s, j, fuel, busy);
        CheckAllKeepsIdleGroups(c, q, Check(c, q, s, j, fuel).checked, names[1..], fuel, busy);
    }
  }

  /** Whatever the requirement graph looks like, a terminating call leaves at most one kext per group. */
  lemma CheckKeepsOnePerGroup(c: Catalog, q: Query, s: set<nat>, i: nat, fuel: nat)
    requires i < |c| && OnePerGroup(c, s)
    requires Check(c, q, s, i, fuel).Done?
    ensures OnePerGroup(c, Check(c, q, s, i, fuel).checked)
  {
    CheckKeepsIdleGroups(c, q, s, i, fuel, {});
  }

  // ------------------------------------------------------------------ white paths

  ghost predicate Requires(c: Catalog, i: nat, j: nat)
    requires i < |c|
  {
    exists name :: name in c[i].requirements && Requirement(c, name) == Some(j)
  }

  ghost predicate White(c: Catalog, q: Query, s: set<nat>, i: nat) {
    i < |c| && i !in s && Eligible(c, q, i)
  }

  /** A path along followed requirements through kexts that are all unchecked in `s` and eligible. */
  ghost predicate WhitePath(c: Catalog, q: Query, s: set<nat>, p: seq<nat>) {
    && p != []
    && White(c, q, s, p[0])
    && (|p| > 1 ==> Requires(c, p[0], p[1]) && WhitePath(c, q, s, p[1..]))
  }

  ghost predicate WhiteReachable(c: Catalog, q: Query, s: set<nat>, i: nat, j: nat) {
    exists p :: WhitePath(c, q, s, p) && p[0] == i && p[|p| - 1] == j
  }

  ghost function WhiteSet(c: Catalog, q: Query, s: set<nat>, i: nat): set<nat> {
    set j: nat | j < |c| && WhiteReachable(c, q, s, i, j)
  }

  /** What the call on `i` is asked to have checked: the white-reachable kexts and all they eligibly require. */
  ghost function Demand(c: Catalog, q: Query, s: set<nat>, i: nat): set<nat> {
    var w := WhiteSet(c, q, s, i);
    w + (set j: nat | j < |c| && Eligible(c, q, j) && exists k :: k in w && Requires(c, k, j))
  }

  ghost predicate HasRivalIn(c: Catalog, w: set<nat>, j: nat)
    requires j < |c|
  {
    exists i :: i in w && i < |c| && Rivals(c, i, j)
  }

  ghost function AllRivals(c: Catalog, w: set<nat>): set<nat> {
    set j: nat | j < |c| && HasRivalIn(c, w, j)
  }

  /** A requirement named `name` that is eligible is checked in `r`. */
  ghost predicate Served(c: Catalog, q: Query, name: string, r: set<nat>) {
    var j := Requirement(c, name);
    j.Some? && Eligible(c, q, j.value) ==> j.value in r
  }

  lemma WhitePathExtends(c: Catalog, q: Query, s: set<nat>, p: seq<nat>, j: nat)
    requires WhitePath(c, q, s, p)
    requires p[|p| - 1] < |c| && Requires(c, p[|p| - 1], j) && White(c, q, s, j)
    ensures WhitePath(c, q, s, p + [j])
    decreases |p|
  {
    if |p| == 1 {
      assert (p + [j])[1..] == [j];
    } else {
      WhitePathExtends(c, q, s, p[1..], j);
      assert (p + [j])[1..] == p[1..] + [j];
    }
  }

  lemma WhitePathEnd(c: Catalog, q: Query, s: set<nat>, p: seq<nat>)
    requires WhitePath(c, q, s, p)
    ensures White(c, q, s, p[|p| - 1])
    decreases |p|
  {
    if |p| > 1 { WhitePathEnd(c, q, s, p[1..]); }
  }

  /** The facts about a white set that the search uses. */
  lemma WhiteSetFacts(c: Catalog, q: Query, s: set<nat>, i: nat)
    ensures White(c, q, s, i) ==> i in WhiteSet(c, q, s, i)
    ensures forall k :: k in WhiteSet(c, q, s, i) ==> White(c, q, s, k)
    ensures forall k: nat, j: nat {:trigger Requires(c, k, j)} ::
      k in WhiteSet(c, q, s, i) && Requires(c, k, j) && White(c, q, s, j) ==> j in WhiteSet(c, q, s, i)
  {
    if White(c, q, s, i) {
      assert WhitePath(c, q, s, [i]);
    }
    forall k | k in WhiteSet(c, q, s, i) ensures White(c, q, s, k) {
      var p :| WhitePath(c, q, s, p) && p[0] == i && p[|p| - 1] == k;
      WhitePathEnd(c, q, s, p);
    }
    forall k: nat, j: nat | k in WhiteSet(c, q, s, i) && Requires(c, k, j) && White(c, q, s, j)
      ensures j in WhiteSet(c, q, s, i)
    {
      var p :| WhitePath(c, q, s, p) && p[0] == i && p[|p| - 1] == k;
      WhitePathExtends(c, q, s, p, j);
      assert (p + [j])[0] == i && (p + [j])[|p + [j]| - 1] == j;
    }
  }

  /** A set that contains `i` if it is white, and is closed under white requirements, holds all that is reachable. */
  lemma WhitePathStaysIn(c: Catalog, q: Query, s: set<nat>, p: seq<nat>, v: set<nat>)
    requires WhitePath(c, q, s, p) && p[0] in v
    requires forall k: nat, j: nat {:trigger Requires(c, k, j)} ::
      k in v && k < |c| && Requires(c, k, j) && White(c, q, s, j) ==> j in v
    ensures p[|p| - 1] in v
    decreases |p|
  {
    if |p| > 1 { WhitePathStaysIn(c, q, s, p[1..], v); }
  }

  // ------------------------------------------------------------------ the white-path theorem

  /**
   * The territory of a search that began in state `s0`: a white set `w`, and the demand `t` around it.
   * Inside `t` kexts are only ever marked, because `t` holds no rivals.
   */
  ghost predicate Territory(c: Catalog, q: Query, s0: set<nat>, w: set<nat>, t: set<nat>) {
    && w <= t
    && OnePerGroup(c, t)
    && (forall k :: k in t ==> k < |c|)
    && (forall k :: k in w ==> White(c, q, s0, k))
    && (forall k: nat, j: nat {:trigger Requires(c, k, j)} ::
      k in w && Requires(c, k, j) && j < |c| && Eligible(c, q, j) ==> j in t)
    && (forall k: nat, j: nat {:trigger Requires(c, k, j)} ::
      k in w && Requires(c, k, j) && White(c, q, s0, j) ==> j in w)
  }

  /** A kext checked in `s` is still checked in `r` unless it rivals one of the kexts new in `r`. */
  ghost predicate RightlyKept(c: Catalog, s: set<nat>, r: set<nat>, k: nat) {
    k in s ==> (k in r <==> !(k < |c| && HasRivalIn(c, r - s, k)))
  }

  /** What one stretch of the search does: new kexts come from `w` with all they require, and only their rivals go. */
  ghost predicate Grown(c: Catalog, q: Query, w: set<nat>, t: set<nat>, s: set<nat>, r: set<nat>) {
    && r - s <= w
    && s * t <= r
    && (forall k: nat {:trigger RightlyKept(c, s, r, k)} :: RightlyKept(c, s, r, k))
    && (forall k: nat, j: nat {:trigger Requires(c, k, j)} ::
          k in r - s && k < |c| && Requires(c, k, j) && j < |c| && Eligible(c, q, j) ==> j in r)
  }

  lemma GrownByNothing(c: Catalog, q: Query, w: set<nat>, t: set<nat>, s: set<nat>)
    ensures Grown(c, q, w, t, s, s)
  {
    assert s - s == {};
  }

  lemma GrownTwice(c: Catalog, q: Query, s0: set<nat>, w: set<nat>, t: set<nat>, s: set<nat>, r: set<nat>, u: set<nat>)
    requires Territory(c, q, s0, w, t)
    requires Grown(c, q, w, t, s, r) && Grown(c, q, w, t, r, u)
    ensures Grown(c, q, w, t, s, u)
  {
    assert u - s == (r - s) + (u - r) by {
      assert r - s <= r * t;
      forall k | k in u - r ensures k !in s { assert k !in s * t; }
    }
    forall k: nat ensures RightlyKept(c, s, u, k) {
      assert RightlyKept(c, s, r, k) && RightlyKept(c, r, u, k);
      if k < |c| {
        assert HasRivalIn(c, u - s, k) <==> HasRivalIn(c, r - s, k) || HasRivalIn(c, u - r, k);
      }
    }
    forall k: nat, j: nat | k in u - s && k < |c| && Requires(c, k, j) && j < |c| && Eligible(c, q, j)
      ensures j in u
    {
      if k in r - s { assert j in t && j in r; }
    }
  }

  lemma {:induction false} SearchInTerritory(c: Catalog, q: Query, s0: set<nat>, w: set<nat>, t: set<nat>, s: set<nat>,
                                             i: nat, fuel: nat)
      returns (r: set<nat>)
    requires Territory(c, q, s0, w, t)
    requires s0 * t <= s
    requires i < |c| && (Eligible(c, q, i) && i !in s ==> i in w)
    requires |w - s| <= fuel
    ensures Check(c, q, s, i, fuel) == Done(r)
    ensures Grown(c, q, w, t, s, r) && (Eligible(c, q, i) ==> i in r)
    decreases fuel, 0
  {
    if i in s || !Eligible(c, q, i) {
      r := s;
      GrownByNothing(c, q, w, t, s);
    } else {
      UnmarkedShrinks(w, s, i);
      r := SearchAllInTerritory(c, q, s0, w, t, s + {i}, i, c[i].requirements, fuel - 1);
      CheckUnfolds(c, q, s, i, fuel, r);
      FinishKext(c, q, s0, w, t, s, i, r);
      r := r - RivalsOf(c, i);
    }
  }

  /** Un-marking the rivals of `i` at the end of its call closes the account for `i`. */
  lemma FinishKext(c: Catalog, q: Query, s0: set<nat>, w: set<nat>, t: set<nat>, s: set<nat>, i: nat, r: set<nat>)
    requires Territory(c, q, s0, w, t)
    requires i in w && i !in s
    requires Grown(c, q, w, t, s + {i}, r)
    requires forall name :: name in c[i].requirements ==> Served(c, q, name, r)
    ensures Grown(c, q, w, t, s, r - RivalsOf(c, i)) && i in r - RivalsOf(c, i)
  {
    var u := r - RivalsOf(c, i);
    assert i in (s + {i}) * t;
    assert forall k :: k in t ==> k !in RivalsOf(c, i);
    assert u - s == (r - (s + {i})) + {i};
    forall k: nat ensures RightlyKept(c, s, u, k) {
      assert RightlyKept(c, s + {i}, r, k);
      if k < |c| {
        assert HasRivalIn(c, u - s, k) <==> HasRivalIn(c, r - (s + {i}), k) || Rivals(c, i, k);
      }
    }
    forall k: nat, j: nat | k in u - s && k < |c| && Requires(c, k, j) && j < |c| && Eligible(c, q, j)
      ensures j in u
    {
      assert j in t;
      if k == i {
        var name :| name in c[i].requirements && Requirement(c, name) == Some(j);
        assert Served(c, q, name, r);
      }
    }
  }

  lemma {:induction false} SearchAllInTerritory(c: Catalog, q: Query, s0: set<nat>, w: set<nat>, t: set<nat>,
                                                s: set<nat>, i: nat, names: seq<string>, fuel: nat)
      returns (r: set<nat>)
    requires Territory(c, q, s0, w, t)
    requires s0 * t <= s
    requires i in w && (forall name :: name in names ==> name in c[i].requirements)
    requires |w - s| <= fuel
    ensures CheckAll(c, q, s, names, fuel) == Done(r)
    ensures Grown(c, q, w, t, s, r)
    ensures forall name :: name in names ==> Served(c, q, name, r)
    decreases fuel, 1, |names|
  {
    if names == [] {
      r := s;
      GrownByNothing(c, q, w, t, s);
    } else {
      var name, rest := names[0], names[1..];
      assert names == [name] + rest;
      match Requirement(c, name)
      case None => r := SearchAllInTerritory(c, q, s0, w, t, s, i, rest, fuel);
      case Some(j) =>
        RequirementIsNear(c, q, s0, w, t, s, i, name, j);
        var u := SearchInTerritory(c, q, s0, w, t, s, j, fuel);
        FrontierShrinks(w, t, s0, s, u);
        r := SearchAllInTerritory(c, q, s0, w, t, u, i, rest, fuel);
        GrownTwice(c, q, s0, w, t, s, u, r);
        assert Served(c, q, name, r) by { assert u * t <= r; }
    }
  }

  lemma RequirementIsNear(c: Catalog, q: Query, s0: set<nat>, w: set<nat>, t: set<nat>, s: set<nat>, i: nat,
                          name: string, j: nat)
    requires Territory(c, q, s0, w, t) && s0 * t <= s
    requires i in w && name in c[i].requirements && Requirement(c, name) == Some(j)
    ensures Eligible(c, q, j) ==> j in t
    ensures Eligible(c, q, j) && j !in s ==> j in w
  {
    assert Requires(c, i, j);
  }

  lemma FrontierShrinks(w: set<nat>, t: set<nat>, s0: set<nat>, s: set<nat>, u: set<nat>)
    requires w <= t && s0 * t <= s && s * t <= u
    ensures s0 * t <= u && |w - u| <= |w - s|
  {
    SubsetSize(w - u, w - s);
  }

  lemma CheckUnfolds(c: Catalog, q: Query, s: set<nat>, i: nat, fuel: nat, r: set<nat>)
    requires i < |c| && i !in s && Eligible(c, q, i) && fuel > 0
    requires CheckAll(c, q, s + {i}, c[i].requirements, fuel - 1) == Done(r)
    ensures Check(c, q, s, i, fuel) == Done(r - RivalsOf(c, i))
  { }

  lemma UnmarkedShrinks(w: set<nat>, s: set<nat>, i: nat)
    requires i in w && i !in s
    ensures |w - (s + {i})| == |w - s| - 1
  {
    assert w - s == (w - (s + {i})) + {i};
  }

  lemma SubsetSize(a: set<nat>, b: set<nat>)
    requires a <= b
    ensures |a| <= |b|
  {
    assert b == a + (b - a);
  }

  lemma DemandIsTerritory(c: Catalog, q: Query, s: set<nat>, i: nat)
    requires i < |c| && OnePerGroup(c, Demand(c, q, s, i))
    ensures Territory(c, q, s, WhiteSet(c, q, s, i), Demand(c, q, s, i))
    ensures Eligible(c, q, i) && i !in s ==> i in WhiteSet(c, q, s, i)
  {
    WhiteSetFacts(c, q, s, i);
  }

  /**
   * White-path theorem. If the demand holds no rivals, the call terminates, and afterwards a kext is checked iff it
   * is reachable through kexts that were unchecked and eligible, or was checked before and is no rival of such a kext.
   */
  lemma CheckIsWhiteClosure(c: Catalog, q: Query, s: set<nat>, i: nat) returns (r: set<nat>)
    requires i < |c| && OnePerGroup(c, Demand(c, q, s, i))
    ensures Check(c, q, s, i, |WhiteSet(c, q, s, i)|) == Done(r)
    ensures r == WhiteSet(c, q, s, i) + (s - AllRivals(c, WhiteSet(c, q, s, i)))
    ensures Demand(c, q, s, i) <= r
  {
    var w := WhiteSet(c, q, s, i);
    var fuel := |w|;
    if White(c, q, s, i) {
      DemandIsTerritory(c, q, s, i);
      assert w - s == w;
      r := SearchInTerritory(c, q, s, w, Demand(c, q, s, i), s, i, fuel);
      SearchReachesAll(c, q, s, i, r);
    } else {
      r := s;
      NothingWhite(c, q, s, i);
    }
  }

  lemma NothingWhite(c: Catalog, q: Query, s: set<nat>, i: nat)
    requires !White(c, q, s, i)
    ensures WhiteSet(c, q, s, i) == {} && Demand(c, q, s, i) == {} && AllRivals(c, {}) == {}
  {
    forall p | WhitePath(c, q, s, p) ensures p[0] != i { }
  }

  lemma SearchReachesAll(c: Catalog, q: Query, s: set<nat>, i: nat, r: set<nat>)
    requires i < |c| && i in r && i !in s
    requires Grown(c, q, WhiteSet(c, q, s, i), Demand(c, q, s, i), s, r)
    ensures r == WhiteSet(c, q, s, i) + (s - AllRivals(c, WhiteSet(c, q, s, i)))
    ensures Demand(c, q, s, i) <= r
  {
    var w := WhiteSet(c, q, s, i);
    forall k | k in w ensures k in r - s {
      var p :| WhitePath(c, q, s, p) && p[0] == i && p[|p| - 1] == k;
      WhitePathStaysIn(c, q, s, p, r - s);
    }
    assert r - s == w;
    forall k: nat ensures k in r <==> k in w + (s - AllRivals(c, w)) {
      assert RightlyKept(c, s, r, k);
    }
    forall k | k in Demand(c, q, s, i) ensures k in r {
      if k !in w {
        var m :| m in w && Requires(c, m, k);
      }
    }
  }

  /**
   * Exactly when the call does what it is asked: it ends with everything demanded checked iff no two demanded
   * kexts are rivals. The state before has one kext per group, as every reachable state does.
   */
  lemma DemandMetIff(c: Catalog, q: Query, s: set<nat>, i: nat)
    requires i < |c| && OnePerGroup(c, s)
    ensures (exists fuel :: Check(c, q, s, i, fuel).Done? && Demand(c, q, s, i) <= Check(c, q, s, i, fuel).checked)
            <==> OnePerGroup(c, Demand(c, q, s, i))
  {
    if OnePerGroup(c, Demand(c, q, s, i)) {
      var r := CheckIsWhiteClosure(c, q, s, i);
    }
    forall fuel | Check(c, q, s, i, fuel).Done? && Demand(c, q, s, i) <= Check(c, q, s, i, fuel).checked
      ensures OnePerGroup(c, Demand(c, q, s, i))
    {
      CheckKeepsOnePerGroup(c, q, s, i, fuel);
    }
  }

  /**
   * A condition on the catalogue alone: nothing reachable from `i` through eligible kexts, checked or not, has a rival
   * there.
   */
  lemma ConflictFreeReachSuffices(c: Catalog, q: Query, s: set<nat>, i: nat)
    requires OnePerGroup(c, WhiteSet(c, q, {}, i))
    ensures Demand(c, q, s, i) <= WhiteSet(c, q, {}, i)
    ensures OnePerGroup(c, Demand(c, q, s, i))
  {
    var reach := WhiteSet(c, q, {}, i);
    WhiteSetFacts(c, q, {}, i);
    forall k | k in WhiteSet(c, q, s, i) ensures k in reach {
      var p :| WhitePath(c, q, s, p) && p[0] == i && p[|p| - 1] == k;
      WhitePathWeakens(c, q, s, p);
    }
    forall k | k in Demand(c, q, s, i) ensures k in reach {
      if k !in WhiteSet(c, q, s, i) {
        var m :| m in WhiteSet(c, q, s, i) && Requires(c, m, k);
        assert White(c, q, {}, k);
      }
    }
  }

  lemma WhitePathWeakens(c: Catalog, q: Query, s: set<nat>, p: seq<nat>)
    requires WhitePath(c, q, s, p)
    ensures WhitePath(c, q, {}, p)
    decreases |p|
  {
    if |p| > 1 { WhitePathWeakens(c, q, s, p[1..]); }
  }

  // ------------------------------------------------------------------ the relations in the catalogue's own terms

  /** A kext requires another by its name, which the last kext of that name answers to; the very first never does. */
  lemma RequiresIff(c: Catalog, i: nat, j: nat)
    requires i < |c|
    ensures Requires(c, i, j) <==>
      0 < j < |c| && c[j].name in c[i].requirements && forall later :: j < later < |c| ==> c[later].name != c[j].name
  {
    if j < |c| { RequirementIsLastCalled(c, c[j].name, j); }
    if Requires(c, i, j) {
      var name :| name in c[i].requirements && Requirement(c, name) == Some(j);
      RequirementIsLastCalled(c, name, j);
    }
  }

  /** With names that are all different: at most one kext of the set in each group that has a name. */
  lemma OnePerGroupIff(c: Catalog, s: set<nat>)
    requires forall i, j :: 0 <= i < j < |c| ==> c[i].name != c[j].name
    ensures OnePerGroup(c, s) <==>
      forall i: nat, j: nat {:trigger c[i], c[j]} ::
        i in s && j in s && i < |c| && j < |c| && c[i].group == c[j].group && c[i].group !in {None, Some("")} ==> i == j
  {
    forall i: nat, j: nat | i < |c| && j < |c|
      ensures Rivals(c, i, j) <==>
        c[i].group == c[j].group && c[i].group !in {None, Some("")} && i != j
    { }
  }

  /** A kext is eligible if unsupported ones are allowed, or its range holds the target; compared as numbers. */
  lemma EligibleByNumber(c: Catalog, q: Query, i: nat, base: nat)
    requires i < |c| && q.target.minor < base && q.target.patch < base
    requires c[i].range.min.minor < base && c[i].range.min.patch < base
    requires c[i].range.max.minor < base && c[i].range.max.patch < base
    ensures
      var low, high, t := c[i].range.min, c[i].range.max, q.target;
      var at := (t.major * base + t.minor) * base + t.patch;
      Eligible(c, q, i) <==>
        || q.allowUnsupported
        || ((low.major * base + low.minor) * base + low.patch <= at &&
            at <= (high.major * base + high.minor) * base + high.patch)
  {
    RangeIsByNumber(c[i].range, q.target, base);
  }
}
