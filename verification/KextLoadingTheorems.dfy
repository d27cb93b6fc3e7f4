/** What loading promises: kernel ranges, duplicate identifiers, and exactly when it ends. */
module KextLoadingTheorems {
  import opened Options
  import opened DarwinVersions
  import opened KextLoading

  // ------------------------------------------------------------------ kernel ranges

  ghost predicate DependsVia(l: Library, p: seq<nat>, b: nat, d: nat) {
    && p != [] && p[0] == b
    && if |p| == 1 then b == d else DependsOn(l, b, p[1]) && DependsVia(l, p[1..], p[1], d)
  }

  /** `d` is `b` or one of its transitive dependencies that are not unloaded. */
  ghost predicate Needs(l: Library, b: nat, d: nat) {
    d < |l.bundles| && exists p :: DependsVia(l, p, b, d)
  }

  lemma NeedsStep(l: Library, b: nat, d: nat, e: nat)
    requires DependsOn(l, b, d) && Needs(l, d, e)
    ensures Needs(l, b, e)
  {
    var p :| DependsVia(l, p, d, e);
    assert ([b] + p)[1..] == p;
    assert DependsVia(l, [b] + p, b, e);
  }

  lemma AcceptsDown(l: Library, u: LoadState, p: seq<nat>, b: nat, d: nat, v: Version)
    requires Sorted(l, u) && Complete(l, u)
    requires b in u.order && d < |l.bundles| && DependsVia(l, p, b, d)
    requires forall e {:trigger Overridden(l, e)} :: Needs(l, b, e) ==> !Overridden(l, e)
    requires b in u.ranges && u.ranges[b].Accepts(v)
    ensures OwnRange(l, d).Accepts(v)
    decreases |p|
  {
    NeedsSelf(l, b);
    RangeMet(l, u, b);
    assert OwnRange(l, b).Accepts(v);
    if |p| > 1 {
      var c := p[1];
      forall e | Needs(l, c, e) ensures Needs(l, b, e) { NeedsStep(l, b, c, e); }
      AcceptsDown(l, u, p[1..], c, d, v);
    }
  }

  lemma NeedsSelf(l: Library, b: nat)
    requires b < |l.bundles|
    ensures Needs(l, b, b)
  {
    assert DependsVia(l, [b], b, b);
  }

  lemma RangeMet(l: Library, u: LoadState, b: nat)
    requires Sorted(l, u) && b in u.order && !Overridden(l, b)
    ensures b in u.ranges && MeetOf(l, u.ranges, b, u.ranges[b])
  {
    assert Settled(l, u.ranges, b);
  }

  lemma {:induction false} AcceptsUp(l: Library, u: LoadState, k: nat, v: Version)
    requires Sorted(l, u) && Complete(l, u) && k < |u.order|
    requires forall e {:trigger Overridden(l, e)} :: Needs(l, u.order[k], e) ==> !Overridden(l, e)
    requires forall d {:trigger OwnRange(l, d)} :: Needs(l, u.order[k], d) ==> OwnRange(l, d).Accepts(v)
    ensures u.order[k] in u.ranges && u.ranges[u.order[k]].Accepts(v)
  {
    var b := u.order[k];
    NeedsSelf(l, b);
    RangeMet(l, u, b);
    assert DependenciesBefore(l, u.order, k);
    forall d | DependsOn(l, b, d) ensures d in u.ranges && u.ranges[d].Accepts(v) {
      var j :| 0 <= j < k && u.order[j] == d;
      forall e | Needs(l, d, e) ensures Needs(l, b, e) { NeedsStep(l, b, d, e); }
      AcceptsUp(l, u, j, v);
    }
  }

  /**
   * After loading, a bundle whose dependencies carry neither override accepts exactly the kernel versions that it
   * and all its transitive dependencies accept on their own.
   */
  lemma RangeIsIntersection(l: Library, u: LoadState, b: nat, v: Version)
    requires Sorted(l, u) && Complete(l, u) && b in u.order
    requires forall e {:trigger Overridden(l, e)} :: Needs(l, b, e) ==> !Overridden(l, e)
    ensures b in u.ranges
    ensures u.ranges[b].Accepts(v) <==>
      forall d {:trigger OwnRange(l, d)} :: Needs(l, b, d) ==> OwnRange(l, d).Accepts(v)
  {
    NeedsSelf(l, b);
    RangeMet(l, u, b);
    if u.ranges[b].Accepts(v) {
      forall d | Needs(l, b, d) ensures OwnRange(l, d).Accepts(v) {
        var p :| DependsVia(l, p, b, d);
        AcceptsDown(l, u, p, b, d, v);
      }
    }
    if forall d {:trigger OwnRange(l, d)} :: Needs(l, b, d) ==> OwnRange(l, d).Accepts(v) {
      var k :| 0 <= k < |u.order| && u.order[k] == b;
      AcceptsUp(l, u, k, v);
    }
  }

  // ------------------------------------------------------------------ duplicate identifiers

  /** The bundle at position `k` of the output is Enabled: no earlier one carries its identifier. */
  ghost predicate Enabled(l: Library, order: seq<nat>, k: nat)
    requires k < |order| && forall i: nat :: i < |order| ==> order[i] < |l.bundles|
  {
    forall j: nat {:trigger order[j]} :: j < k ==> l.bundles[order[j]].identifier != l.bundles[order[k]].identifier
  }

  lemma {:induction false} EnabledExists(l: Library, order: seq<nat>, k: nat) returns (e: nat)
    requires forall i: nat :: i < |order| ==> order[i] < |l.bundles|
    requires k < |order|
    ensures e <= k && Enabled(l, order, e) && l.bundles[order[e]].identifier == l.bundles[order[k]].identifier
  {
    if Enabled(l, order, k) {
      e := k;
    } else {
      var j: nat :| j < k && l.bundles[order[j]].identifier == l.bundles[order[k]].identifier;
      e := EnabledExists(l, order, j);
    }
  }

  /** Of the bundles that carry one identifier, exactly one is Enabled, and it is the first. */
  lemma OneEnabledPerIdentifier(l: Library, order: seq<nat>, k: nat) returns (e: nat)
    requires forall i: nat :: i < |order| ==> order[i] < |l.bundles|
    requires k < |order|
    ensures e <= k && l.bundles[order[e]].identifier == l.bundles[order[k]].identifier
    ensures forall i: nat {:trigger Enabled(l, order, i)} ::
              i < |order| && l.bundles[order[i]].identifier == l.bundles[order[k]].identifier
              ==> (Enabled(l, order, i) <==> i == e) && e <= i
  {
    e := EnabledExists(l, order, k);
  }

  /** Each dependency of a loaded bundle has an Enabled provider strictly earlier in the output. */
  lemma DependencyIsEnabledEarlier(l: Library, u: LoadState, k: nat, id: string) returns (e: nat)
    requires Sorted(l, u) && Complete(l, u) && k < |u.order|
    requires id in l.bundles[u.order[k]].libraries
    requires Provider(l, id).Some? && Loadable(l, Provider(l, id).value)
    ensures e < k && Enabled(l, u.order, e) && l.bundles[u.order[e]].identifier == id
  {
    var d := Provider(l, id).value;
    LastIndexIsLast(Identifiers(l), id);
    assert DependsOn(l, u.order[k], d);
    assert DependenciesBefore(l, u.order, k);
    var j :| 0 <= j < k && u.order[j] == d;
    e := EnabledExists(l, u.order, j);
  }

  // ------------------------------------------------------------------ exactly when loading ends

  ghost predicate Untouched(l: Library, order: seq<nat>, knot: set<nat>) {
    forall b: nat {:trigger Visited(l, order, b)} :: b in knot && b < |l.bundles| ==> !Visited(l, order, b)
  }

  ghost predicate OutsideKnot(l: Library, knot: set<nat>, id: string) {
    Provider(l, id).Some? ==> Provider(l, id).value !in knot
  }

  lemma UntouchedGrows(l: Library, order: seq<nat>, b: nat, knot: set<nat>)
    requires DistinctKeys(l) && b < |l.bundles| && b !in knot && Untouched(l, order, knot)
    ensures Untouched(l, order + [b], knot)
  {
    var more := order + [b];
    forall x: nat | x in knot && x < |l.bundles| ensures !Visited(l, more, x) {
      assert !Visited(l, order, x);
      forall k | 0 <= k < |more| && more[k] < |l.bundles| ensures !SameKey(l, more[k], x) {
        assert more[k] == if k < |order| then order[k] else b;
      }
    }
  }

  lemma KnotMemberNeedsKnot(l: Library, knot: set<nat>, b: nat) returns (id: string)
    requires Knot(l, knot) && b in knot
    ensures b < |l.bundles| && id in l.bundles[b].libraries && !OutsideKnot(l, knot, id)
  {
    assert DependsInto(l, b, knot);
    var d :| d in knot && DependsOn(l, b, d);
    id :| id in l.bundles[b].libraries && Provider(l, id) == Some(d);
  }

  lemma KnotIsLoadable(l: Library, knot: set<nat>, b: nat)
    requires Knot(l, knot) && b in knot
    ensures b < |l.bundles| && Loadable(l, b)
  {
    assert DependsInto(l, b, knot);
    var d :| d in knot && DependsOn(l, b, d);
  }

  lemma {:induction false} KnotBlocks(l: Library, knot: set<nat>, st: LoadState, b: nat, fuel: nat, u: LoadState)
    requires DistinctKeys(l) && Knot(l, knot) && Untouched(l, st.order, knot)
    requires b < |l.bundles| && Visit(l, st, b, fuel) == Loaded(u)
    ensures b !in knot && Untouched(l, u.order, knot)
    decreases fuel, 0
  {
    if !Loadable(l, b) || Visited(l, st.order, b) {
      if b in knot { KnotIsLoadable(l, knot, b); }
    } else {
      var own := st.(ranges := st.ranges[b := OwnRange(l, b)]);
      var libraries := l.bundles[b].libraries;
      var w := VisitAll(l, own, b, libraries, fuel - 1).state;
      KnotBlocksAll(l, knot, own, b, libraries, fuel - 1, w);
      if b in knot {
        var id := KnotMemberNeedsKnot(l, knot, b);
      }
      UntouchedGrows(l, w.order, b, knot);
    }
  }

  lemma {:induction false} KnotBlocksAll(l: Library, knot: set<nat>, st: LoadState, b: nat, libraries: seq<string>,
                                         fuel: nat, u: LoadState)
    requires DistinctKeys(l) && Knot(l, knot) && Untouched(l, st.order, knot)
    requires b < |l.bundles| && b in st.ranges && VisitAll(l, st, b, libraries, fuel) == Loaded(u)
    ensures Untouched(l, u.order, knot)
    ensures forall id {:trigger OutsideKnot(l, knot, id)} :: id in libraries ==> OutsideKnot(l, knot, id)
    decreases fuel, 1, |libraries|
  {
    if libraries != [] {
      assert libraries == [libraries[0]] + libraries[1..];
      match Provider(l, libraries[0])
      case None => KnotBlocksAll(l, knot, st, b, libraries[1..], fuel, u);
      case Some(d) =>
        var w := Visit(l, st, d, fuel).state;
        KnotBlocks(l, knot, st, d, fuel, w);
        var next := w.(ranges := w.ranges[b := Narrow(w.ranges, b, d).value]);
        KnotBlocksAll(l, knot, next, b, libraries[1..], fuel, u);
    }
  }

  lemma {:induction false} KnotBlocksLoad(l: Library, knot: set<nat>, st: LoadState, i: nat, fuel: nat, u: LoadState)
    requires DistinctKeys(l) && Knot(l, knot) && Untouched(l, st.order, knot)
    requires i <= |l.bundles| && LoadFrom(l, st, i, fuel) == Loaded(u)
    ensures forall b: nat :: i <= b < |l.bundles| ==> b !in knot
    decreases |l.bundles| - i
  {
    if i < |l.bundles| {
      var w := Visit(l, st, i, fuel).state;
      KnotBlocks(l, knot, st, i, fuel, w);
      KnotBlocksLoad(l, knot, w, i + 1, fuel, u);
    }
  }

  /** `b` needs no more than `n` levels of dependencies. */
  ghost predicate Shallow(l: Library, b: nat, n: nat)
    decreases n
  {
    forall d: nat {:trigger DependsOn(l, b, d)} :: DependsOn(l, b, d) ==> n > 0 && Shallow(l, d, n - 1)
  }

  lemma {:induction false} ShallowMonotone(l: Library, b: nat, m: nat, n: nat)
    requires m <= n && Shallow(l, b, m)
    ensures Shallow(l, b, n)
    decreases m
  {
    forall d: nat | DependsOn(l, b, d) ensures Shallow(l, d, n - 1) {
      ShallowMonotone(l, d, m - 1, n - 1);
    }
  }

  ghost predicate Bounded(l: Library, b: nat) {
    exists n: nat :: Shallow(l, b, n)
  }

  /** Bundles below `i` that `b` depends on have a common bound. */
  lemma {:induction false} CommonBound(l: Library, b: nat, i: nat) returns (n: nat)
    requires forall d: nat {:trigger DependsOn(l, b, d)} :: DependsOn(l, b, d) && d < i ==> Bounded(l, d)
    ensures forall d: nat {:trigger DependsOn(l, b, d)} :: DependsOn(l, b, d) && d < i ==> Shallow(l, d, n)
  {
    if i == 0 {
      n := 0;
    } else {
      var m := CommonBound(l, b, i - 1);
      n := m;
      if DependsOn(l, b, i - 1) {
        var k: nat :| Shallow(l, i - 1, k);
        n := m + k;
        ShallowMonotone(l, i - 1, k, n);
      }
      forall d: nat | DependsOn(l, b, d) && d < i ensures Shallow(l, d, n) {
        if d < i - 1 { ShallowMonotone(l, d, m, n); }
      }
    }
  }

  lemma UnboundedIsKnot(l: Library, k: set<nat>)
    requires k == set b: nat | b < |l.bundles| && !Bounded(l, b)
    ensures k == {} || Knot(l, k)
  {
    forall b | b in k ensures DependsInto(l, b, k) {
      if forall d: nat {:trigger DependsOn(l, b, d)} :: DependsOn(l, b, d) && d < |l.bundles| ==> Bounded(l, d) {
        var n := CommonBound(l, b, |l.bundles|);
        assert Shallow(l, b, n + 1);
        assert false;
      }
    }
  }

  /** The least number of levels. */
  ghost function Height(l: Library, b: nat, n: nat): (h: nat)
    requires Shallow(l, b, n)
    ensures Shallow(l, b, h) && h <= n
    ensures forall m: nat :: Shallow(l, b, m) ==> h <= m
  {
    if n > 0 && Shallow(l, b, n - 1) then Height(l, b, n - 1)
    else
      assert forall m: nat :: Shallow(l, b, m) ==> n <= m by {
        forall m: nat | Shallow(l, b, m) ensures n <= m {
          if m < n { ShallowMonotone(l, b, m, n - 1); }
        }
      }
      n
  }

  lemma RankExists(l: Library) returns (rank: seq<nat>)
    requires !exists k :: Knot(l, k)
    ensures Ranked(l, rank)
  {
    var unbounded := set b: nat | b < |l.bundles| && !Bounded(l, b);
    UnboundedIsKnot(l, unbounded);
    assert unbounded == {};
    rank := [];
    for i := 0 to |l.bundles|
      invariant |rank| == i
      invariant forall b: nat :: b < i ==> Shallow(l, b, rank[b]) && forall m: nat :: Shallow(l, b, m) ==> rank[b] <= m
    {
      assert Bounded(l, i) by { assert i !in unbounded; }
      var n: nat :| Shallow(l, i, n);
      rank := rank + [Height(l, i, n)];
    }
  }

  ghost predicate NeedsProperly(l: Library, b: nat, x: nat) {
    exists c: nat :: DependsOn(l, b, c) && Needs(l, c, x)
  }

  /** Some bundle depends on itself through bundles that are not unloaded. */
  ghost predicate Cyclic(l: Library) {
    exists b: nat :: NeedsProperly(l, b, b)
  }

  lemma {:induction false} KnotIsCyclic(l: Library, k: set<nat>)
    requires Knot(l, k)
    ensures Cyclic(l)
    decreases |k|
  {
    var b :| b in k;
    if !NeedsProperly(l, b, b) {
      var below := NeededBelow(l, b, k);
      NeededBelowIsKnot(l, b, k);
      SmallerSet(below, k, b);
      KnotIsCyclic(l, below);
    }
  }

  ghost function NeededBelow(l: Library, b: nat, k: set<nat>): set<nat> {
    set x | x in k && NeedsProperly(l, b, x)
  }

  /** The members that `b` properly needs form a smaller knot if `b` is not among them. */
  lemma NeededBelowIsKnot(l: Library, b: nat, k: set<nat>)
    requires Knot(l, k) && b in k && !NeedsProperly(l, b, b)
    ensures Knot(l, NeededBelow(l, b, k)) && b !in NeededBelow(l, b, k)
  {
    var below := NeededBelow(l, b, k);
    assert DependsInto(l, b, k);
    var d: nat :| d in k && DependsOn(l, b, d);
    NeedsSelf(l, d);
    assert d in below;
    forall x | x in below ensures DependsInto(l, x, below) {
      var c: nat :| DependsOn(l, b, c) && Needs(l, c, x);
      assert DependsInto(l, x, k);
      var y: nat :| y in k && DependsOn(l, x, y);
      NeedsThen(l, c, x, y);
      assert y in below;
    }
  }

  lemma SmallerSet(a: set<nat>, k: set<nat>, b: nat)
    requires b in k && b !in a && a <= k
    ensures |a| < |k|
  {
    assert k == a + (k - a) && b in k - a;
  }

  lemma NeedsThen(l: Library, c: nat, x: nat, y: nat)
    requires Needs(l, c, x) && DependsOn(l, x, y)
    ensures Needs(l, c, y)
  {
    var p :| DependsVia(l, p, c, x);
    ViaThen(l, p, c, x, y);
  }

  lemma {:induction false} ViaThen(l: Library, p: seq<nat>, c: nat, x: nat, y: nat)
    requires DependsVia(l, p, c, x) && DependsOn(l, x, y)
    ensures DependsVia(l, p + [y], c, y)
  {
    if |p| == 1 {
      assert (p + [y])[1..] == [y];
    } else {
      ViaThen(l, p[1..], p[1], x, y);
      assert (p + [y])[1..] == p[1..] + [y];
    }
  }

  ghost function Members(p: seq<nat>): set<nat> {
    set x | x in p
  }

  lemma CycleMember(l: Library, b: nat, p: seq<nat>, c: nat, i: nat)
    requires DependsOn(l, b, c) && DependsVia(l, p, c, b) && i < |p|
    ensures DependsInto(l, p[i], Members(p))
  {
    ViaLinks(l, p, c, b, i);
    var next := if i + 1 < |p| then p[i + 1] else p[0];
    assert next in Members(p);
  }

  lemma CycleIsKnot(l: Library, b: nat, p: seq<nat>, c: nat)
    requires DependsOn(l, b, c) && DependsVia(l, p, c, b)
    ensures Knot(l, Members(p))
  {
    assert p[0] in Members(p);
    forall x | x in Members(p) ensures DependsInto(l, x, Members(p)) {
      var i: nat :| i < |p| && p[i] == x;
      CycleMember(l, b, p, c, i);
    }
  }

  lemma {:induction false} ViaLinks(l: Library, p: seq<nat>, b: nat, d: nat, i: nat)
    requires DependsVia(l, p, b, d) && i < |p|
    ensures if i + 1 < |p| then DependsOn(l, p[i], p[i + 1]) else p[i] == d
  {
    if i > 0 && |p| > 1 { ViaLinks(l, p[1..], p[1], d, i - 1); }
  }

  /** Exactly when loading ends: iff no bundle depends on itself through bundles that are not unloaded. */
  lemma LoadEndsIff(l: Library)
    requires DistinctKeys(l) && RangesInside(l)
    ensures (exists fuel :: Load(l, fuel).Loaded?) <==> !Cyclic(l)
  {
    if Cyclic(l) {
      var b: nat :| NeedsProperly(l, b, b);
      var c: nat :| DependsOn(l, b, c) && Needs(l, c, b);
      var p :| DependsVia(l, p, c, b);
      CycleIsKnot(l, b, p, c);
      var k := Members(p);
      forall fuel ensures !Load(l, fuel).Loaded? {
        if Load(l, fuel).Loaded? {
          KnotBlocksLoad(l, k, LoadState([], map[]), 0, fuel, Load(l, fuel).state);
          KnotIsLoadable(l, k, p[0]);
        }
      }
    } else {
      forall k ensures !Knot(l, k) {
        if Knot(l, k) { KnotIsCyclic(l, k); }
      }
      var rank := RankExists(l);
      var fuel := SumAbove(rank);
      var u := LoadSorts(l, rank, fuel);
    }
  }

  lemma {:induction false} SumAbove(rank: seq<nat>) returns (n: nat)
    ensures forall b :: 0 <= b < |rank| ==> rank[b] < n
  {
    n := 1;
    for i := 0 to |rank|
      invariant n > 0 && forall b :: 0 <= b < i ==> rank[b] < n
    {
      n := n + rank[i] + 1;
    }
  }
}
