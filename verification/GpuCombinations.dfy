/** Which GPUs may be enabled together: index groups by vendor, and the combinations offered from them. */
module GpuCombinations {
  import opened Options
  import opened DarwinVersions
  import opened DeviceCombinations

  datatype Maker = Amd | Intel | OtherMaker
  datatype Form = Integrated | Discrete | OtherForm
  datatype Codename = Navi22 | OtherNavi | NoNavi

  /** The properties of a GPU that the selection reads. */
  datatype Gpu = Gpu(maker: Maker, form: Form, codename: Codename, compatibility: Option<Range>, oclp: bool)

  predicate IsApu(g: Gpu) { g.maker.Amd? && g.form.Integrated? }

  predicate IsNavi22(g: Gpu) { g.maker.Amd? && g.form.Discrete? && g.codename.Navi22? }

  predicate IsOtherNavi(g: Gpu) { g.maker.Amd? && g.form.Discrete? && g.codename.OtherNavi? }

  predicate IsIntel(g: Gpu) { g.maker.Intel? }

  predicate IsPlain(g: Gpu) { !IsApu(g) && !IsNavi22(g) && !IsOtherNavi(g) && !IsIntel(g) }

  // ------------------------------------------------------------------ groups

  datatype Indices = Indices(apu: Option<nat>, navi22: set<nat>, navi: set<nat>, intel: set<nat>, other: set<nat>)

  predicate Placed(g: Gpu, k: nat, r: Indices) {
    && (k in r.navi22 <==> IsNavi22(g))
    && (k in r.navi <==> IsOtherNavi(g))
    && (k in r.intel <==> IsIntel(g))
    && (k in r.other <==> IsPlain(g))
    && (IsApu(g) ==> r.apu.Some? && k <= r.apu.value)
  }

  predicate Listed(r: Indices, k: nat) { k in r.navi22 || k in r.navi || k in r.intel || k in r.other }

  /** The first `n` indices are classified, and no others; only the last integrated AMD GPU is remembered. */
  ghost predicate Classifies(gpus: seq<Gpu>, n: nat, r: Indices)
    requires n <= |gpus|
  {
    && (r.apu.Some? ==> r.apu.value < n && IsApu(gpus[r.apu.value]))
    && (forall k: nat {:trigger gpus[k]} {:trigger Listed(r, k)} :: k < n ==> Placed(gpus[k], k, r))
    && (forall k: nat {:trigger Listed(r, k)} :: Listed(r, k) ==> k < n)
  }

  function Place(g: Gpu, k: nat, r: Indices): Indices {
    if g.maker.Amd? && g.form.Integrated? then r.(apu := Some(k))
    else if g.maker.Amd? && g.form.Discrete? && !g.codename.NoNavi? then
      if g.codename.Navi22? then r.(navi22 := r.navi22 + {k}) else r.(navi := r.navi + {k})
    else if g.maker.Intel? then r.(intel := r.intel + {k})
    else r.(other := r.other + {k})
  }

  lemma PlaceOne(gpus: seq<Gpu>, n: nat, r: Indices)
    requires n < |gpus| && Classifies(gpus, n, r)
    ensures Classifies(gpus, n + 1, Place(gpus[n], n, r))
  {
    var s := Place(gpus[n], n, r);
    forall k: nat | Listed(s, k)
      ensures k < n + 1
    {
      assert k == n || Listed(r, k);
    }
    assert !Listed(r, n);
    forall k: nat | k < n + 1
      ensures Placed(gpus[k], k, s)
    {
      if k < n { assert Placed(gpus[k], k, r); }
    }
  }

  method Classify(gpus: seq<Gpu>) returns (r: Indices)
    ensures Classifies(gpus, |gpus|, r)
  {
    r := Indices(None, {}, {}, {}, {});
    for k := 0 to |gpus|
      invariant Classifies(gpus, k, r)
    {
      PlaceOne(gpus, k, r);
      r := Place(gpus[k], k, r);
    }
  }

  /** An index of 0 is false in the source, so it counts as absent. */
  predicate ApuCounts(r: Indices) { r.apu.Some? && r.apu.value != 0 }

  function Groups(r: Indices): seq<set<nat>> {
    (if ApuCounts(r) then [{r.apu.value} + r.other] else [])
    + (if r.navi22 != {} then [r.navi22 + r.other] else [])
    + (if r.navi != {} || r.intel != {} || r.other != {} then [r.navi + r.intel + r.other] else [])
  }

  lemma GroupsAre(r: Indices, g: set<nat>)
    ensures g in Groups(r) <==>
      || (ApuCounts(r) && g == {r.apu.value} + r.other)
      || (r.navi22 != {} && g == r.navi22 + r.other)
      || ((r.navi != {} || r.intel != {} || r.other != {}) && g == r.navi + r.intel + r.other)
  {
    var a := if ApuCounts(r) then [{r.apu.value} + r.other] else [];
    var b := if r.navi22 != {} then [r.navi22 + r.other] else [];
    var c := if r.navi != {} || r.intel != {} || r.other != {} then [r.navi + r.intel + r.other] else [];
    assert g in Groups(r) <==> g in a || g in b || g in c;
  }

  // ------------------------------------------------------------------ offered combinations

  predicate Within(c: seq<nat>, group: set<nat>) { forall x :: x in c ==> x in group }

  predicate NeedsOclp(gpus: seq<Gpu>, c: seq<nat>) {
    exists j :: 0 <= j < |c| && c[j] < |gpus| && gpus[c[j]].oclp
  }

  predicate Permitted(gpus: seq<Gpu>, c: seq<nat>) { !(NeedsOclp(gpus, c) && |c| > 1) }

  /** Reference definition: a non-empty choice from one group in which OCLP GPUs stand alone. */
  predicate Allowed(gpus: seq<Gpu>, groups: seq<set<nat>>, c: seq<nat>) {
    c != [] && Ascending(c) && Permitted(gpus, c) && exists g :: g in groups && Within(c, g)
  }

  /** No integrated AMD GPU beside a Navi or Intel GPU, no Navi 22 beside another Navi or Intel GPU. */
  predicate Compatible(gpus: seq<Gpu>, c: seq<nat>) {
    forall x, y :: x in c && y in c && x < |gpus| && y < |gpus| ==>
      && (IsApu(gpus[x]) ==> !IsNavi22(gpus[y]) && !IsOtherNavi(gpus[y]) && !IsIntel(gpus[y]))
      && (IsNavi22(gpus[x]) ==> !IsOtherNavi(gpus[y]) && !IsIntel(gpus[y]))
      && (x != y && IsApu(gpus[x]) ==> !IsApu(gpus[y]))
  }

  lemma GroupMember(gpus: seq<Gpu>, r: Indices, g: set<nat>, x: nat)
    requires Classifies(gpus, |gpus|, r) && g in Groups(r) && x in g
    ensures x < |gpus| && Placed(gpus[x], x, r)
  {
    GroupsAre(r, g);
    assert Listed(r, x) || (r.apu.Some? && x == r.apu.value);
  }

  lemma AllowedIsCompatible(gpus: seq<Gpu>, r: Indices, c: seq<nat>)
    requires Classifies(gpus, |gpus|, r) && Allowed(gpus, Groups(r), c)
    ensures Compatible(gpus, c)
    ensures NeedsOclp(gpus, c) ==> |c| == 1
    ensures forall x :: x in c ==> x < |gpus|
  {
    var g :| g in Groups(r) && Within(c, g);
    GroupsAre(r, g);
    forall x | x in c
      ensures x < |gpus| && Placed(gpus[x], x, r)
    {
      GroupMember(gpus, r, g, x);
    }
  }

  /** GPU `k` belongs to a group unless it is an integrated AMD GPU that comes first in the list or is not the last. */
  predicate Offerable(gpus: seq<Gpu>, k: nat)
    requires k < |gpus|
  {
    IsApu(gpus[k]) ==> k != 0 && forall later :: k < later < |gpus| ==> !IsApu(gpus[later])
  }

  /** Exactly the offerable GPUs occur in some offered combination; the others can only be disabled. */
  lemma OfferedIff(gpus: seq<Gpu>, r: Indices, k: nat)
    requires Classifies(gpus, |gpus|, r) && k < |gpus|
    ensures Offerable(gpus, k) <==>
      exists c {:trigger Allowed(gpus, Groups(r), c)} :: Allowed(gpus, Groups(r), c) && k in c
  {
    if Offerable(gpus, k) {
      var g := if IsApu(gpus[k]) then {r.apu.value} + r.other
               else if IsNavi22(gpus[k]) then r.navi22 + r.other else r.navi + r.intel + r.other;
      assert k in g;
      GroupsAre(r, g);
      assert Within([k], g);
      assert Allowed(gpus, Groups(r), [k]) && k in [k];
    } else {
      forall c | Allowed(gpus, Groups(r), c)
        ensures k !in c
      {
        var g :| g in Groups(r) && Within(c, g);
        GroupsAre(r, g);
        assert k !in g;
      }
    }
  }

  /** An ascending choice of offerable GPUs that do not conflict, in which one that needs OCLP stands alone. */
  predicate Offered(gpus: seq<Gpu>, c: seq<nat>) {
    && c != [] && Ascending(c) && Compatible(gpus, c)
    && (forall x :: x in c ==> x < |gpus| && Offerable(gpus, x))
    && (forall x :: x in c && x < |gpus| && gpus[x].oclp ==> |c| == 1)
  }

  /** Exactly which combinations are offered, without speaking of groups. */
  lemma AllowedIff(gpus: seq<Gpu>, r: Indices, c: seq<nat>)
    requires Classifies(gpus, |gpus|, r)
    ensures Allowed(gpus, Groups(r), c) <==> Offered(gpus, c)
  {
    if Allowed(gpus, Groups(r), c) {
      AllowedIsCompatible(gpus, r, c);
      forall x | x in c
        ensures Offerable(gpus, x)
      {
        OfferedIff(gpus, r, x);
      }
    } else if c != [] && Ascending(c) && Compatible(gpus, c) &&
        forall x :: x in c ==> x < |gpus| && Offerable(gpus, x) {
      var g := GroupOf(gpus, r, c);
      if NeedsOclp(gpus, c) {
        var j :| 0 <= j < |c| && c[j] < |gpus| && gpus[c[j]].oclp;
        assert c[j] in c;
      }
    }
  }

  /** A combination without conflicts lies in one group. */
  lemma GroupOf(gpus: seq<Gpu>, r: Indices, c: seq<nat>) returns (g: set<nat>)
    requires Classifies(gpus, |gpus|, r) && c != [] && Compatible(gpus, c)
    requires forall x :: x in c ==> x < |gpus| && Offerable(gpus, x)
    ensures g in Groups(r) && Within(c, g)
  {
    forall x | x in c
      ensures Placed(gpus[x], x, r)
    { }
    if a :| a in c && IsApu(gpus[a]) {
      g := {r.apu.value} + r.other;
      assert a == r.apu.value;
    } else if n :| n in c && IsNavi22(gpus[n]) {
      g := r.navi22 + r.other;
    } else {
      g := r.navi + r.intel + r.other;
      assert c[0] in c && c[0] in g;
    }
    GroupsAre(r, g);
  }

  // ------------------------------------------------------------------ the range of a combination

  function Intersected(range: Option<Range>, own: Option<Range>): Option<Range> {
    if own.None? then range else if range.None? then own else Some(Meet(range.value, own.value))
  }

  /** The range kept after the first `n` members; members without a range leave it alone. */
  function RangeOf(gpus: seq<Gpu>, c: seq<nat>, n: nat): Option<Range>
    requires n <= |c|
  {
    if n == 0 then None
    else
      var before := RangeOf(gpus, c, n - 1);
      if c[n - 1] < |gpus| then Intersected(before, gpus[c[n - 1]].compatibility) else before
  }

  predicate MemberAccepts(gpus: seq<Gpu>, x: nat, v: Version) {
    x < |gpus| && gpus[x].compatibility.Some? ==> gpus[x].compatibility.value.Accepts(v)
  }

  predicate MemberHasRange(gpus: seq<Gpu>, x: nat) { x < |gpus| && gpus[x].compatibility.Some? }

  /** A version lies in the range of a combination iff it lies in the range of every member that has one. */
  lemma {:induction false} RangeIsIntersection(gpus: seq<Gpu>, c: seq<nat>, n: nat, v: Version)
    requires n <= |c|
    ensures RangeOf(gpus, c, n).Some? <==> exists k :: 0 <= k < n && MemberHasRange(gpus, c[k])
    ensures RangeOf(gpus, c, n).Some? ==>
      (RangeOf(gpus, c, n).value.Accepts(v) <==> forall k :: 0 <= k < n ==> MemberAccepts(gpus, c[k], v))
  {
    if n > 0 { RangeIsIntersection(gpus, c, n - 1, v); }
  }

  /**
   * The menu is sorted by the first bound of every range, which raises when a combination has none: exactly when some
   * offerable GPU has no range.
   */
  lemma SortingRaisesIff(gpus: seq<Gpu>, r: Indices)
    requires Classifies(gpus, |gpus|, r)
    ensures (exists c {:trigger Allowed(gpus, Groups(r), c)} ::
              Allowed(gpus, Groups(r), c) && RangeOf(gpus, c, |c|).None?)
      <==> exists k: nat {:trigger gpus[k]} :: k < |gpus| && Offerable(gpus, k) && gpus[k].compatibility.None?
  {
    if c :| Allowed(gpus, Groups(r), c) && RangeOf(gpus, c, |c|).None? {
      AllowedIsCompatible(gpus, r, c);
      RangeIsIntersection(gpus, c, |c|, Version(0, 0, 0));
      assert !MemberHasRange(gpus, c[0]);
      assert c[0] in c;
      OfferedIff(gpus, r, c[0]);
    }
    if k: nat :| k < |gpus| && Offerable(gpus, k) && gpus[k].compatibility.None? {
      OfferedIff(gpus, r, k);
      var c :| Allowed(gpus, Groups(r), c) && k in c;
      var g :| g in Groups(r) && Within(c, g);
      assert RangeOf(gpus, [k], 0) == None;
      assert Within([k], g);
      assert Allowed(gpus, Groups(r), [k]) && RangeOf(gpus, [k], 1).None?;
    }
  }

  // ------------------------------------------------------------------ the loops

  datatype Offer = Offer(members: seq<nat>, range: Option<Range>)

  function OfferOf(gpus: seq<Gpu>, c: seq<nat>): Offer { Offer(c, RangeOf(gpus, c, |c|)) }

  method Examine(gpus: seq<Gpu>, c: seq<nat>) returns (range: Option<Range>, oclp: bool)
    requires forall j :: 0 <= j < |c| ==> c[j] < |gpus|
    ensures range == RangeOf(gpus, c, |c|) && (oclp <==> NeedsOclp(gpus, c))
  {
    range, oclp := None, false;
    for k := 0 to |c|
      invariant range == RangeOf(gpus, c, k)
      invariant oclp <==> exists j :: 0 <= j < k && c[j] < |gpus| && gpus[c[j]].oclp
    {
      var g := gpus[c[k]];
      if g.compatibility.Some? {
        if range.None? {
          range := g.compatibility;
        } else {
          if Less(g.compatibility.value.max, range.value.max) {
            range := Some(range.value.(max := g.compatibility.value.max));
          }
          if Less(range.value.min, g.compatibility.value.min) {
            range := Some(range.value.(min := g.compatibility.value.min));
          }
        }
      }
      if g.oclp { oclp := true; }
    }
  }

  predicate DistinctOffers(offers: seq<Offer>) {
    forall a, b :: 0 <= a < b < |offers| ==> offers[a] != offers[b]
  }

  /** Every offer is allowed by the first `n` groups and carries its range. */
  predicate Sound(gpus: seq<Gpu>, groups: seq<set<nat>>, n: nat, offers: seq<Offer>)
    requires n <= |groups|
  {
    forall o :: o in offers ==> o == OfferOf(gpus, o.members) && Allowed(gpus, groups[..n], o.members)
  }

  ghost predicate Complete(gpus: seq<Gpu>, groups: seq<set<nat>>, n: nat, offers: seq<Offer>)
    requires n <= |groups|
  {
    forall c {:trigger Allowed(gpus, groups[..n], c)} :: Allowed(gpus, groups[..n], c) ==> OfferOf(gpus, c) in offers
  }

  lemma AllowedMore(gpus: seq<Gpu>, groups: seq<set<nat>>, n: nat, c: seq<nat>)
    requires n < |groups|
    ensures Allowed(gpus, groups[..n + 1], c) <==>
      Allowed(gpus, groups[..n], c) || (c != [] && Ascending(c) && Permitted(gpus, c) && Within(c, groups[n]))
  {
    assert groups[..n + 1] == groups[..n] + [groups[n]];
  }

  lemma AscendingInAll(all: seq<seq<nat>>, group: set<nat>, c: seq<nat>)
    requires AllSubsets(all, group) && c != [] && Ascending(c) && Within(c, group)
    ensures c in all
  {
    var chosen := set x | x in c;
    assert c[0] in chosen;
    SortedUnique(c, Sorted(chosen));
    assert chosen <= group;
  }

  method OfferGroup(gpus: seq<Gpu>, ghost groups: seq<set<nat>>, ghost n: nat, group: set<nat>, before: seq<Offer>)
    returns (offers: seq<Offer>)
    requires n < |groups| && groups[n] == group && forall x :: x in group ==> x < |gpus|
    requires DistinctOffers(before) && Sound(gpus, groups, n, before) && Complete(gpus, groups, n, before)
    ensures DistinctOffers(offers) && Sound(gpus, groups, n + 1, offers) && Complete(gpus, groups, n + 1, offers)
  {
    var all := GetDeviceCombinations(group);
    offers := before;
    forall o | o in before
      ensures Allowed(gpus, groups[..n + 1], o.members)
    {
      AllowedMore(gpus, groups, n, o.members);
    }
    for k := 0 to |all|
      invariant DistinctOffers(offers) && Sound(gpus, groups, n + 1, offers)
      invariant forall o :: o in before ==> o in offers
      invariant forall j :: 0 <= j < k && Permitted(gpus, all[j]) ==> OfferOf(gpus, all[j]) in offers
    {
      var c := all[k];
      assert c in all;
      forall j | 0 <= j < |c|
        ensures c[j] < |gpus|
      {
        assert c[j] in c;
      }
      var range, oclp := Examine(gpus, c);
      if !(oclp && |c| > 1) && Offer(c, range) !in offers {
        AllowedMore(gpus, groups, n, c);
        offers := offers + [Offer(c, range)];
      }
    }
    forall c | Allowed(gpus, groups[..n + 1], c)
      ensures OfferOf(gpus, c) in offers
    {
      AllowedMore(gpus, groups, n, c);
      if Allowed(gpus, groups[..n], c) {
        assert OfferOf(gpus, c) in before;
      } else {
        AscendingInAll(all, group, c);
      }
    }
  }

  /** The offers are exactly the allowed combinations, each once and with its range. */
  method OfferCombinations(gpus: seq<Gpu>) returns (offers: seq<Offer>, ghost r: Indices)
    ensures Classifies(gpus, |gpus|, r) && DistinctOffers(offers)
    ensures Sound(gpus, Groups(r), |Groups(r)|, offers) && Complete(gpus, Groups(r), |Groups(r)|, offers)
    ensures forall c {:trigger Offered(gpus, c)} :: Offered(gpus, c) <==> OfferOf(gpus, c) in offers
    ensures forall o :: o in offers ==> o == OfferOf(gpus, o.members)
  {
    var indices := Classify(gpus);
    r := indices;
    var groups := Groups(indices);
    offers := [];
    for n := 0 to |groups|
      invariant DistinctOffers(offers) && Sound(gpus, groups, n, offers) && Complete(gpus, groups, n, offers)
    {
      forall x | x in groups[n]
        ensures x < |gpus|
      {
        GroupMember(gpus, indices, groups[n], x);
      }
      offers := OfferGroup(gpus, groups, n, groups[n], offers);
    }
    assert groups[..|groups|] == groups;
    forall c
      ensures Offered(gpus, c) <==> OfferOf(gpus, c) in offers
    {
      AllowedIff(gpus, r, c);
    }
  }
}
