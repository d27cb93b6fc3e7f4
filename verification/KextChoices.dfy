/**
 * What the selection loop and the menu choose: the kexts reachable from the selected names, the required ones that have
 * no rival among them, and for every menu entry the kext it sets or clears.
 */
module KextChoices {
  import opened Options
  import opened KextCatalog
  import opened KextSelection
  import opened KextSessions

  // ------------------------------------------------------------------ what the names ask for

  predicate Known(c: Catalog, name: string) { exists i :: 0 <= i < |c| && c[i].name == name }

  /** One of the first `n` names stands for a kext from which `j` is reachable through kexts unchecked in `s`. */
  ghost predicate Asked(c: Catalog, q: Query, s: set<nat>, names: seq<string>, n: nat, j: nat)
    requires n <= |names|
  {
    exists k: nat, i: nat {:trigger LastCalled(c, names[k], i)} ::
      k < n && LastCalled(c, names[k], i) && WhiteReachable(c, q, s, i, j)
  }

  ghost function AskedSet(c: Catalog, q: Query, s: set<nat>, names: seq<string>, n: nat): set<nat>
    requires n <= |names|
  {
    set j: nat | j < |c| && Asked(c, q, s, names, n, j)
  }

  /** The asked kexts, and those checked before that rival none of them. */
  ghost function ChoiceOf(c: Catalog, s: set<nat>, w: set<nat>): set<nat> { w + (s - AllRivals(c, w)) }

  // ------------------------------------------------------------------ one name

  /** The kexts asked for so far: white in the first state, closed under white requirements, free of rivals. */
  ghost predicate Gathered(c: Catalog, q: Query, s0: set<nat>, all: set<nat>, w: set<nat>) {
    && OnePerGroup(c, all) && w <= all && (forall k :: k in all ==> k < |c|)
    && (forall k {:trigger White(c, q, s0, k)} :: k in w ==> White(c, q, s0, k))
    && (forall k: nat, j: nat {:trigger Requires(c, k, j)} ::
          k in w && k < |c| && Requires(c, k, j) && White(c, q, s0, j) ==> j in w)
  }

  lemma {:induction false} NumbersBelow(s: set<nat>, n: nat)
    requires forall k :: k in s ==> k < n
    ensures |s| <= n
  {
    if n > 0 {
      NumbersBelow(s - {n - 1}, n - 1);
      if n - 1 in s { assert s == (s - {n - 1}) + {n - 1}; } else { assert s == s - {n - 1}; }
    } else {
      assert s == {};
    }
  }

  /** A path through kexts unchecked later is one through kexts unchecked at first: nothing asked for was un-marked. */
  lemma {:induction false} PathWasWhite(c: Catalog, q: Query, s0: set<nat>, all: set<nat>, w: set<nat>, p: seq<nat>)
    requires Gathered(c, q, s0, all, w) && WhitePath(c, q, ChoiceOf(c, s0, w), p)
    requires forall k :: 0 <= k < |p| ==> p[k] in all
    ensures WhitePath(c, q, s0, p)
    decreases |p|
  {
    assert p[0] in all && !HasRivalIn(c, w, p[0]);
    if |p| > 1 {
      forall k | 0 <= k < |p| - 1
        ensures p[1..][k] in all
      {
        assert p[1..][k] == p[k + 1];
      }
      PathWasWhite(c, q, s0, all, w, p[1..]);
    }
  }

  /** And a path through kexts unchecked at first is one through kexts unchecked later, or ends in what was asked. */
  lemma {:induction false} PathStaysWhite(c: Catalog, q: Query, s0: set<nat>, all: set<nat>, w: set<nat>, p: seq<nat>)
    requires Gathered(c, q, s0, all, w) && WhitePath(c, q, s0, p)
    ensures WhitePath(c, q, ChoiceOf(c, s0, w), p) || p[|p| - 1] in w
    decreases |p|
  {
    if p[0] in w {
      WhitePathStaysIn(c, q, s0, p, w);
    } else if |p| > 1 {
      PathStaysWhite(c, q, s0, all, w, p[1..]);
    }
  }

  /** Every kext on a white path is reachable from its first. */
  lemma {:induction false} OnPath(c: Catalog, q: Query, s: set<nat>, p: seq<nat>, k: nat)
    requires WhitePath(c, q, s, p) && k < |p|
    ensures WhitePath(c, q, s, p[..k + 1]) && p[k] < |c|
    decreases |p|
  {
    if k == 0 {
      assert p[..1] == [p[0]];
    } else {
      OnPath(c, q, s, p[1..], k - 1);
      assert p[..k + 1][1..] == p[1..][..k];
      assert p[..k + 1][1] == p[1];
    }
  }

  lemma WhiteSetMoves(c: Catalog, q: Query, s0: set<nat>, all: set<nat>, w: set<nat>, i: nat, j: nat)
    requires Gathered(c, q, s0, all, w) && WhiteSet(c, q, {}, i) <= all && j < |c|
    ensures j in w || WhiteReachable(c, q, ChoiceOf(c, s0, w), i, j) <==> j in w || WhiteReachable(c, q, s0, i, j)
  {
    var s := ChoiceOf(c, s0, w);
    if WhiteReachable(c, q, s, i, j) {
      var p :| WhitePath(c, q, s, p) && p[0] == i && p[|p| - 1] == j;
      WhitePathWeakens(c, q, s, p);
      forall k | 0 <= k < |p|
        ensures p[k] in all
      {
        OnPath(c, q, {}, p, k);
        assert p[..k + 1][0] == i && p[..k + 1][k] == p[k];
        assert WhiteReachable(c, q, {}, i, p[k]);
        assert p[k] in WhiteSet(c, q, {}, i);
      }
      PathWasWhite(c, q, s0, all, w, p);
    }
    if WhiteReachable(c, q, s0, i, j) {
      var p :| WhitePath(c, q, s0, p) && p[0] == i && p[|p| - 1] == j;
      PathStaysWhite(c, q, s0, all, w, p);
    }
  }

  lemma WhiteSetBound(c: Catalog, q: Query, s: set<nat>, i: nat)
    ensures |WhiteSet(c, q, s, i)| <= |c|
  {
    NumbersBelow(WhiteSet(c, q, s, i), |c|);
  }

  /** Rivals among what is asked are ruled out, so later names un-mark nothing that earlier ones asked for. */
  lemma ChoiceGrows(c: Catalog, s0: set<nat>, all: set<nat>, w: set<nat>, v: set<nat>)
    requires OnePerGroup(c, all) && w <= all && v <= all && forall k :: k in all ==> k < |c|
    ensures v + (ChoiceOf(c, s0, w) - AllRivals(c, v)) == ChoiceOf(c, s0, w + v)
  {
    forall k: nat
      ensures k in v + (ChoiceOf(c, s0, w) - AllRivals(c, v)) <==> k in ChoiceOf(c, s0, w + v)
    {
      if k < |c| {
        assert HasRivalIn(c, w + v, k) <==> HasRivalIn(c, w, k) || HasRivalIn(c, v, k);
      }
    }
  }

  lemma ChoiceAlike(c: Catalog, s0: set<nat>, all: set<nat>, w: set<nat>, v: set<nat>, x: set<nat>)
    requires OnePerGroup(c, all) && w <= all && v <= all && x <= all && w + v == w + x
    requires forall k :: k in all ==> k < |c|
    ensures v + (ChoiceOf(c, s0, w) - AllRivals(c, v)) == ChoiceOf(c, s0, w + x)
  {
    ChoiceGrows(c, s0, all, w, v);
  }

  /** One call of `check_kext` on the way adds what its kext reaches from the first state. */
  lemma OneName(c: Catalog, q: Query, s0: set<nat>, all: set<nat>, w: set<nat>, i: nat)
    requires Gathered(c, q, s0, all, w) && i < |c| && WhiteSet(c, q, {}, i) <= all
    ensures
      var w' := w + WhiteSet(c, q, s0, i);
      Check(c, q, ChoiceOf(c, s0, w), i, |c|) == Done(ChoiceOf(c, s0, w')) && Gathered(c, q, s0, all, w')
  {
    hide WhiteReachable, HasRivalIn, Check;
    var s := ChoiceOf(c, s0, w);
    var v, x := WhiteSet(c, q, s, i), WhiteSet(c, q, s0, i);
    ReachInside(c, q, s, i);
    ReachInside(c, q, s0, i);
    forall j: nat
      ensures j in w + v <==> j in w + x
    {
      if j < |c| { WhiteSetMoves(c, q, s0, all, w, i, j); }
    }
    WhiteSetFacts(c, q, s0, i);
    ConflictFreeWithin(c, q, s, i, all);
    var r := CheckIsWhiteClosure(c, q, s, i);
    WhiteSetBound(c, q, s, i);
    CheckFuelMonotone(c, q, s, i, |v|, |c|);
    ChoiceAlike(c, s0, all, w, v, x);
  }

  lemma ReachInside(c: Catalog, q: Query, s: set<nat>, i: nat)
    ensures WhiteSet(c, q, s, i) <= WhiteSet(c, q, {}, i)
  {
    forall k | k in WhiteSet(c, q, s, i)
      ensures k in WhiteSet(c, q, {}, i)
    {
      var p :| WhitePath(c, q, s, p) && p[0] == i && p[|p| - 1] == k;
      WhitePathWeakens(c, q, s, p);
    }
  }

  lemma ConflictFreeWithin(c: Catalog, q: Query, s: set<nat>, i: nat, all: set<nat>)
    requires OnePerGroup(c, all) && WhiteSet(c, q, {}, i) <= all
    ensures OnePerGroup(c, Demand(c, q, s, i))
  {
    ConflictFreeReachSuffices(c, q, s, i);
  }

  // ------------------------------------------------------------------ the selection loop

  lemma AskedOneMore(c: Catalog, q: Query, s: set<nat>, names: seq<string>, n: nat, i: nat)
    requires n < |names| && LastCalled(c, names[n], i)
    ensures AskedSet(c, q, s, names, n + 1) == AskedSet(c, q, s, names, n) + WhiteSet(c, q, s, i)
  {
    hide WhiteReachable;
    forall j: nat
      ensures j in AskedSet(c, q, s, names, n + 1) <==>
        j in AskedSet(c, q, s, names, n) || j in WhiteSet(c, q, s, i)
    {
      if j < |c| && Asked(c, q, s, names, n + 1, j) {
        var k: nat, m: nat :| k < n + 1 && LastCalled(c, names[k], m) && WhiteReachable(c, q, s, m, j);
        assert k == n ==> m == i;
      }
    }
  }

  lemma {:induction false} AskedGrows(c: Catalog, q: Query, s: set<nat>, names: seq<string>, n: nat, m: nat)
    requires n <= m <= |names|
    ensures AskedSet(c, q, s, names, n) <= AskedSet(c, q, s, names, m)
  {
    forall j | j in AskedSet(c, q, s, names, n)
      ensures j in AskedSet(c, q, s, names, m)
    {
      var k: nat, i: nat :| k < n && LastCalled(c, names[k], i) && WhiteReachable(c, q, s, i, j);
    }
  }

  lemma {:induction false} KnownHasIndex(c: Catalog, name: string) returns (i: nat)
    requires Known(c, name)
    ensures LastCalled(c, name, i) && IndexByName(c, name) == Some(i)
  {
    UnknownIffNotCalled(c, name);
    i := IndexByName(c, name).value;
    IndexIsLastCalled(c, name, i);
  }

  /** The first `n` names are known, and the next one, if there is one, is not. */
  predicate KnownUpTo(c: Catalog, names: seq<string>, n: nat) {
    n <= |names| && (forall k :: 0 <= k < n ==> Known(c, names[k])) && (n < |names| ==> !Known(c, names[n]))
  }

  /** What the loop ends with after the first `n` names: it raises at a name that is not in the catalogue. */
  function EndAt(names: seq<string>, n: nat, checked: set<nat>): Selection {
    if n == |names| then Finished(checked) else Raised(checked)
  }

  lemma {:induction false} SelectRest(c: Catalog, q: Query, s0: set<nat>, names: seq<string>, n: nat, k: nat)
    requires KnownUpTo(c, names, n) && k <= n && OnePerGroup(c, AskedSet(c, q, {}, names, n))
    requires Gathered(c, q, s0, AskedSet(c, q, {}, names, n), AskedSet(c, q, s0, names, k))
    ensures SelectAll(c, q, ChoiceOf(c, s0, AskedSet(c, q, s0, names, k)), names[k..], |c|) ==
      EndAt(names, n, ChoiceOf(c, s0, AskedSet(c, q, s0, names, n)))
    decreases n - k
  {
    hide Asked, Gathered, Check;
    if k < n {
      var all, w := AskedSet(c, q, {}, names, n), AskedSet(c, q, s0, names, k);
      var i := KnownHasIndex(c, names[k]);
      AskedOneMore(c, q, {}, names, k, i);
      AskedOneMore(c, q, s0, names, k, i);
      AskedGrows(c, q, {}, names, k + 1, n);
      OneName(c, q, s0, all, w, i);
      assert names[k..][0] == names[k] && names[k..][1..] == names[k + 1..];
      SelectRest(c, q, s0, names, n, k + 1);
    } else if n < |names| {
      UnknownIffNotCalled(c, names[n]);
    }
  }

  /** `r` holds what the first `n` names ask for from `s`, and the kexts of `s` that rival none of that. */
  ghost predicate IsChoice(c: Catalog, q: Query, s: set<nat>, names: seq<string>, n: nat, r: set<nat>)
    requires n <= |names|
  {
    forall j: nat :: j in r <==>
      (j < |c| && Asked(c, q, s, names, n, j)) ||
      (j in s && !(j < |c| && HasRivalIn(c, AskedSet(c, q, s, names, n), j)))
  }

  /** What is asked for, with nothing checked, holds no rivals. */
  ghost predicate ConflictFree(c: Catalog, q: Query, names: seq<string>, n: nat)
    requires n <= |names|
  {
    OnePerGroup(c, AskedSet(c, q, {}, names, n))
  }

  /**
   * The selection loop from any state. If the kexts reachable from the names through eligible kexts hold no rivals,
   * the loop ends, and then a kext is checked exactly if it is reachable from a name through unchecked eligible
   * kexts, or was checked before and is no rival of such a kext. So every eligible kext that was named is checked.
   * An unknown name raises after the names before it have been handled.
   */
  lemma SelectionIsClosure(c: Catalog, q: Query, s: set<nat>, names: seq<string>, n: nat) returns (r: set<nat>)
    requires KnownUpTo(c, names, n) && ConflictFree(c, q, names, n)
    ensures SelectAll(c, q, s, names, |c|) == if n == |names| then Finished(r) else Raised(r)
    ensures IsChoice(c, q, s, names, n, r)
    ensures forall k: nat, i: nat {:trigger LastCalled(c, names[k], i)} ::
      k < n && LastCalled(c, names[k], i) && Eligible(c, q, i) ==> i in r
  {
    NothingAsked(c, q, s, names, n);
    SelectRest(c, q, s, names, n, 0);
    assert names[0..] == names;
    r := ChoiceOf(c, s, AskedSet(c, q, s, names, n));
    forall k: nat, i: nat | k < n && LastCalled(c, names[k], i) && Eligible(c, q, i)
      ensures i in r
    {
      NamedIsChosen(c, q, s, names, n, k, i);
    }
  }

  lemma NothingAsked(c: Catalog, q: Query, s: set<nat>, names: seq<string>, n: nat)
    requires n <= |names| && OnePerGroup(c, AskedSet(c, q, {}, names, n))
    ensures Gathered(c, q, s, AskedSet(c, q, {}, names, n), AskedSet(c, q, s, names, 0))
    ensures ChoiceOf(c, s, AskedSet(c, q, s, names, 0)) == s
  {
    assert AskedSet(c, q, s, names, 0) == {};
    assert AllRivals(c, {}) == {};
  }

  lemma NamedIsChosen(c: Catalog, q: Query, s: set<nat>, names: seq<string>, n: nat, k: nat, i: nat)
    requires n <= |names| && OnePerGroup(c, AskedSet(c, q, {}, names, n))
    requires k < n && LastCalled(c, names[k], i) && Eligible(c, q, i)
    ensures i in ChoiceOf(c, s, AskedSet(c, q, s, names, n))
  {
    WhiteSetFacts(c, q, {}, i);
    WhiteSetFacts(c, q, s, i);
    assert White(c, q, {}, i);
    var all, w := AskedSet(c, q, {}, names, n), AskedSet(c, q, s, names, n);
    assert i in all;
    forall j | j in w
      ensures j in all
    {
      var b: nat, m: nat :| b < n && LastCalled(c, names[b], m) && WhiteReachable(c, q, s, m, j);
      ReachInside(c, q, s, m);
      assert j in WhiteSet(c, q, s, m);
    }
    if i !in s { assert White(c, q, s, i); }
  }

  lemma {:induction false} SelectAllFuelMonotone(c: Catalog, q: Query, s: set<nat>, names: seq<string>, f: nat, g: nat)
    requires f <= g && !SelectAll(c, q, s, names, f).Endless?
    ensures SelectAll(c, q, s, names, g) == SelectAll(c, q, s, names, f)
    decreases |names|
  {
    if names != [] && IndexByName(c, names[0]).Some? {
      var i := IndexByName(c, names[0]).value;
      CheckFuelMonotone(c, q, s, i, f, g);
      SelectAllFuelMonotone(c, q, Check(c, q, s, i, f).checked, names[1..], f, g);
    }
  }

  /** Every run of the loop that ends chooses that set, however deep its calls may nest. */
  lemma EndedSelectionIsClosure(c: Catalog, q: Query, s: set<nat>, names: seq<string>, n: nat, fuel: nat)
    requires KnownUpTo(c, names, n) && ConflictFree(c, q, names, n)
    requires !SelectAll(c, q, s, names, fuel).Endless?
    ensures
      var e := SelectAll(c, q, s, names, fuel);
      (e.Finished? <==> n == |names|) && IsChoice(c, q, s, names, n, e.checked)
  {
    var r := SelectionIsClosure(c, q, s, names, n);
    SelectAllFuelMonotone(c, q, s, names, fuel, if fuel < |c| then |c| else fuel);
    SelectAllFuelMonotone(c, q, s, names, |c|, if fuel < |c| then |c| else fuel);
  }

  // ------------------------------------------------------------------ the menu

  /**
   * One menu entry takes `s` to `r`. An entry outside the list does nothing. A checked kext that is not required is
   * un-checked, with those that it names and that are not required. Any other one is checked with what it reaches,
   * provided that it demands no rivals.
   */
  ghost predicate MenuStep(c: Catalog, q: Query, s: set<nat>, index: int, r: set<nat>) {
    if index < 0 || index >= |c| then r == s
    else if index in s && !c[index].required then
      forall j: nat :: j in r <==>
        j in s && j != index && !(j < |c| && c[j].name in c[index].requirements && !c[j].required)
    else
      OnePerGroup(c, Demand(c, q, s, index)) ==>
        forall j: nat :: j in r <==>
          (j < |c| && WhiteReachable(c, q, s, index, j)) ||
          (j in s && !(j < |c| && HasRivalIn(c, WhiteSet(c, q, s, index), j)))
  }

  lemma EndedCheckIsClosure(c: Catalog, q: Query, s: set<nat>, i: nat, fuel: nat)
    requires i < |c| && OnePerGroup(c, Demand(c, q, s, i)) && Check(c, q, s, i, fuel).Done?
    ensures Check(c, q, s, i, fuel) == Done(WhiteSet(c, q, s, i) + (s - AllRivals(c, WhiteSet(c, q, s, i))))
  {
    var r := CheckIsWhiteClosure(c, q, s, i);
    var w := |WhiteSet(c, q, s, i)|;
    CheckFuelMonotone(c, q, s, i, fuel, if fuel < w then w else fuel);
    CheckFuelMonotone(c, q, s, i, w, if fuel < w then w else fuel);
  }

  lemma ToggleIsMenuStep(c: Catalog, q: Query, s: set<nat>, index: int, fuel: nat)
    requires Toggle(c, q, s, index, fuel).Done?
    ensures MenuStep(c, q, s, index, Toggle(c, q, s, index, fuel).checked)
  {
    if 0 <= index < |c| && !(index in s && !c[index].required) && OnePerGroup(c, Demand(c, q, s, index)) {
      EndedCheckIsClosure(c, q, s, index, fuel);
    }
  }

  /** The states between the entries of a menu line. */
  ghost predicate MenuSteps(c: Catalog, q: Query, indices: seq<int>, states: seq<set<nat>>) {
    |states| == |indices| + 1 &&
    forall k {:trigger indices[k]} :: 0 <= k < |indices| ==> MenuStep(c, q, states[k], indices[k], states[k + 1])
  }

  /** A menu line that ends has handled every entry, in order. */
  lemma {:induction false} MenuLineIsSteps(c: Catalog, q: Query, s: set<nat>, indices: seq<int>, fuel: nat)
    returns (states: seq<set<nat>>)
    requires ToggleAll(c, q, s, indices, fuel).Done?
    ensures MenuSteps(c, q, indices, states)
    ensures states[0] == s && states[|indices|] == ToggleAll(c, q, s, indices, fuel).checked
    decreases |indices|
  {
    if indices == [] {
      states := [s];
    } else {
      hide MenuStep, Toggle;
      ToggleIsMenuStep(c, q, s, indices[0], fuel);
      var rest := MenuLineIsSteps(c, q, Toggle(c, q, s, indices[0], fuel).checked, indices[1..], fuel);
      states := [s] + rest;
      forall k | 0 <= k < |indices|
        ensures MenuStep(c, q, states[k], indices[k], states[k + 1])
      {
        if k > 0 { assert indices[1..][k - 1] == indices[k] && rest[k - 1] == states[k] && rest[k] == states[k + 1]; }
      }
    }
  }

  // ------------------------------------------------------------------ runs

  /** A selection starts from the required kexts, whatever was checked before. */
  lemma SelectionEvent(c: Catalog, q: Query, s: set<nat>, names: seq<string>, n: nat, fuel: nat)
    requires KnownUpTo(c, names, n) && ConflictFree(c, q, names, n) && Handle(c, s, Select(names, q), fuel).Done?
    ensures IsChoice(c, q, RequiredSet(c), names, n, Handle(c, s, Select(names, q), fuel).checked)
  {
    EndedSelectionIsClosure(c, q, RequiredSet(c), names, n, fuel);
  }

  lemma MenuEvent(c: Catalog, q: Query, s: set<nat>, indices: seq<int>, fuel: nat) returns (states: seq<set<nat>>)
    requires Handle(c, s, Menu(indices, q), fuel).Done?
    ensures MenuSteps(c, q, indices, states)
    ensures states[0] == s && states[|indices|] == Handle(c, s, Menu(indices, q), fuel).checked
  {
    states := MenuLineIsSteps(c, q, s, indices, fuel);
  }

  /** A run that ends has handled every event, in order. */
  lemma {:induction false} RunIsEvents(c: Catalog, s: set<nat>, events: seq<Event>, fuel: nat)
    returns (states: seq<set<nat>>)
    requires Run(c, s, events, fuel).Done?
    ensures |states| == |events| + 1 && states[0] == s && states[|events|] == Run(c, s, events, fuel).checked
    ensures forall k {:trigger events[k]} :: 0 <= k < |events| ==>
      Handle(c, states[k], events[k], fuel) == Done(states[k + 1])
    decreases |events|
  {
    if events == [] {
      states := [s];
    } else {
      hide Handle;
      var rest := RunIsEvents(c, Handle(c, s, events[0], fuel).checked, events[1..], fuel);
      states := [s] + rest;
      forall k | 0 <= k < |events|
        ensures Handle(c, states[k], events[k], fuel) == Done(states[k + 1])
      {
        if k > 0 { assert events[1..][k - 1] == events[k] && rest[k - 1] == states[k] && rest[k] == states[k + 1]; }
      }
    }
  }
}
