/**
 * How deeply `check_kext` can nest when it ends at all: each nesting level belongs to a different state and kext, so
 * a bound on the number of those decides whether a call ends.
 */
module SelectionBound {
  import opened Bits
  import opened KextCatalog
  import opened KextSelection

  // ------------------------------------------------------------------ counting states

  lemma MaskInjective(s: set<nat>, t: set<nat>, n: nat)
    requires Mask(s, n) == Mask(t, n)
    ensures forall k: nat :: k < n ==> (k in s <==> k in t)
  {
    forall k: nat | k < n
      ensures k in s <==> k in t
    {
      MaskBit(s, n, k);
      MaskBit(t, n, k);
    }
  }

  lemma First(xs: seq<nat>) returns (x: nat)
    requires xs != []
    ensures x == xs[0]
  {
    x := xs[0];
  }

  lemma {:induction false} DistinctBelow(xs: seq<nat>, n: nat)
    requires forall k :: 0 <= k < |xs| ==> xs[k] < n
    requires forall a, b :: 0 <= a < b < |xs| ==> xs[a] != xs[b]
    ensures |xs| <= n
    decreases n
  {
    if n > 0 {
      if k :| 0 <= k < |xs| && xs[k] == n - 1 {
        DistinctBelow(xs[..k] + xs[k + 1..], n - 1);
      } else {
        DistinctBelow(xs, n - 1);
      }
    } else if xs != [] {
      var first := First(xs);
    }
  }

  lemma ProductStep(i: nat, p: nat)
    ensures (i + 1) * p == i * p + p
  { }

  lemma {:induction false} ProductGrows(i: nat, n: nat, p: nat)
    requires i <= n
    ensures i * p <= n * p
  {
    if i < n {
      ProductGrows(i, n - 1, p);
      ProductStep(n - 1, p);
    }
  }

  lemma ProductBelow(i: nat, a: nat, n: nat, p: nat)
    requires i < n && a < p
    ensures i * p + a < n * p
  {
    ProductStep(i, p);
    ProductGrows(i + 1, n, p);
  }

  lemma ProductInjective(i: nat, a: nat, j: nat, b: nat, p: nat)
    requires a < p && b < p && i * p + a == j * p + b
    ensures i == j && a == b
  {
    if i < j { ProductBelow(i, a, j, p); }
    if j < i { ProductBelow(j, b, i, p); }
  }

  // ------------------------------------------------------------------ calls and their depth

  datatype Call = Call(state: set<nat>, index: nat)

  predicate Within(c: Catalog, s: set<nat>) { forall k :: k in s ==> k < |c| }

  function Code(c: Catalog, call: Call): nat { call.index * Pow2(|c|) + Mask(call.state, |c|) }

  /** The number of calls there are on a catalogue. */
  function Calls(c: Catalog): nat { |c| * Pow2(|c|) }

  /** The call ends with exactly this nesting. */
  predicate HasDepth(c: Catalog, q: Query, call: Call, f: nat) {
    && call.index < |c| && Within(c, call.state)
    && Check(c, q, call.state, call.index, f).Done?
    && (f > 0 ==> Check(c, q, call.state, call.index, f - 1).OutOfFuel?)
  }

  lemma DepthIsUnique(c: Catalog, q: Query, call: Call, f: nat, g: nat)
    requires HasDepth(c, q, call, f) && HasDepth(c, q, call, g)
    ensures f == g
  {
    if f < g { CheckFuelMonotone(c, q, call.state, call.index, f, g - 1); }
    if g < f { CheckFuelMonotone(c, q, call.state, call.index, g, f - 1); }
  }

  lemma {:induction false} DepthExists(c: Catalog, q: Query, call: Call, fuel: nat) returns (f: nat)
    requires call.index < |c| && Within(c, call.state) && Check(c, q, call.state, call.index, fuel).Done?
    ensures f <= fuel && HasDepth(c, q, call, f)
  {
    f := fuel;
    if fuel > 0 && Check(c, q, call.state, call.index, fuel - 1).Done? { f := DepthExists(c, q, call, fuel - 1); }
  }

  lemma {:induction false} CheckStaysWithin(c: Catalog, q: Query, s: set<nat>, i: nat, fuel: nat)
    requires i < |c| && Within(c, s) && Check(c, q, s, i, fuel).Done?
    ensures Within(c, Check(c, q, s, i, fuel).checked)
    decreases fuel, 0
  {
    if i !in s && Eligible(c, q, i) { CheckAllStaysWithin(c, q, s + {i}, c[i].requirements, fuel - 1); }
  }

  lemma {:induction false} CheckAllStaysWithin(c: Catalog, q: Query, s: set<nat>, names: seq<string>, fuel: nat)
    requires Within(c, s) && CheckAll(c, q, s, names, fuel).Done?
    ensures Within(c, CheckAll(c, q, s, names, fuel).checked)
    decreases fuel, 1, |names|
  {
    if names != [] {
      match Requirement(c, names[0])
      case None => CheckAllStaysWithin(c, q, s, names[1..], fuel);
      case Some(j) =>
        CheckStaysWithin(c, q, s, j, fuel);
        CheckAllStaysWithin(c, q, Check(c, q, s, j, fuel).checked, names[1..], fuel);
    }
  }

  /** Among requirements that need depth `f`, one call needs it. */
  lemma {:induction false} DeepRequirement(c: Catalog, q: Query, s: set<nat>, names: seq<string>,
                                           f: nat) returns (call: Call)
    requires f > 0 && Within(c, s)
    requires CheckAll(c, q, s, names, f).Done? && CheckAll(c, q, s, names, f - 1).OutOfFuel?
    ensures HasDepth(c, q, call, f)
    decreases |names|
  {
    match Requirement(c, names[0])
    case None => call := DeepRequirement(c, q, s, names[1..], f);
    case Some(j) =>
      if Check(c, q, s, j, f - 1).OutOfFuel? {
        call := Call(s, j);
      } else {
        CheckFuelMonotone(c, q, s, j, f - 1, f);
        CheckStaysWithin(c, q, s, j, f);
        call := DeepRequirement(c, q, Check(c, q, s, j, f).checked, names[1..], f);
      }
  }

  /** A call of depth `f` makes one of the depth below. */
  lemma NestedCall(c: Catalog, q: Query, call: Call, f: nat) returns (nested: Call)
    requires f > 0 && HasDepth(c, q, call, f)
    ensures HasDepth(c, q, nested, f - 1)
  {
    var inside := call.state + {call.index};
    if f == 1 {
      nested := Call(inside, call.index);
    } else {
      nested := DeepRequirement(c, q, inside, c[call.index].requirements, f - 1);
    }
  }

  /** Calls of all depths up to `f`. */
  lemma {:induction false} NestedCalls(c: Catalog, q: Query, call: Call, f: nat) returns (calls: seq<Call>)
    requires HasDepth(c, q, call, f)
    ensures |calls| == f + 1 && forall k: nat {:trigger calls[k]} :: k <= f ==> HasDepth(c, q, calls[k], k)
    decreases f
  {
    if f == 0 {
      calls := [call];
    } else {
      var nested := NestedCall(c, q, call, f);
      calls := NestedCalls(c, q, nested, f - 1);
      calls := calls + [call];
    }
  }

  lemma CodesDiffer(c: Catalog, q: Query, x: Call, f: nat, y: Call, g: nat)
    requires HasDepth(c, q, x, f) && HasDepth(c, q, y, g) && f != g
    ensures Code(c, x) != Code(c, y)
  {
    if Code(c, x) == Code(c, y) {
      ProductInjective(x.index, Mask(x.state, |c|), y.index, Mask(y.state, |c|), Pow2(|c|));
      MaskInjective(x.state, y.state, |c|);
      assert x.state == y.state;
      DepthIsUnique(c, q, x, f, g);
    }
  }

  lemma CodeBelow(c: Catalog, q: Query, call: Call, f: nat)
    requires HasDepth(c, q, call, f)
    ensures Code(c, call) < Calls(c)
  {
    ProductBelow(call.index, Mask(call.state, |c|), |c|, Pow2(|c|));
  }

  lemma DepthIsBounded(c: Catalog, q: Query, call: Call, f: nat)
    requires HasDepth(c, q, call, f)
    ensures f < Calls(c)
  {
    var calls := NestedCalls(c, q, call, f);
    var codes := seq(f + 1, k requires 0 <= k <= f => Code(c, calls[k]));
    forall k | 0 <= k < |codes|
      ensures codes[k] < Calls(c)
    {
      CodeBelow(c, q, calls[k], k);
    }
    forall a, b | 0 <= a < b < |codes|
      ensures codes[a] != codes[b]
    {
      CodesDiffer(c, q, calls[a], a, calls[b], b);
    }
    DistinctBelow(codes, Calls(c));
  }

  /**
   * A call of `check_kext` ends iff it ends with nesting below the number of pairs of a state and a kext; so whether
   * it ends is decided by following it to that depth.
   */
  lemma EndsIff(c: Catalog, q: Query, s: set<nat>, i: nat)
    requires i < |c| && forall k :: k in s ==> k < |c|
    ensures (exists fuel :: Check(c, q, s, i, fuel).Done?) <==> Check(c, q, s, i, |c| * Pow2(|c|)).Done?
  {
    if fuel: nat :| Check(c, q, s, i, fuel).Done? {
      var f := DepthExists(c, q, Call(s, i), fuel);
      DepthIsBounded(c, q, Call(s, i), f);
      CheckFuelMonotone(c, q, s, i, f, Calls(c));
    }
  }
}
