/** `_get_device_combinations`: the non-empty subsets of a set of device indices, by bit mask, then sorted. */
module DeviceCombinations {
  import opened Bits

  // ------------------------------------------------------------------ ascending sequences

  predicate Ascending(s: seq<nat>) {
    forall a, b :: 0 <= a < b < |s| ==> s[a] < s[b]
  }

  predicate IsLeast(s: set<nat>, m: nat) {
    m in s && forall x :: x in s ==> m <= x
  }

  lemma LeastExists(s: set<nat>)
    requires s != {}
    ensures exists m :: IsLeast(s, m)
    decreases |s|
  {
    var y :| y in s;
    var rest := s - {y};
    assert s == rest + {y};
    if rest == {} {
      assert IsLeast(s, y);
    } else {
      LeastExists(rest);
      var m :| IsLeast(rest, m);
      assert IsLeast(s, if y < m then y else m);
    }
  }

  /** The elements of a set in ascending order. */
  function Sorted(s: set<nat>): (r: seq<nat>)
    ensures Ascending(r) && |r| == |s|
    ensures forall x :: x in r <==> x in s
    decreases |s|
  {
    if s == {} then []
    else
      LeastExists(s);
      var m :| IsLeast(s, m);
      [m] + Sorted(s - {m})
  }

  lemma FirstIsMember(s: seq<nat>) returns (x: nat)
    requires s != []
    ensures x in s && x == s[0]
  {
    x := s[0];
  }

  lemma {:induction false} SortedUnique(a: seq<nat>, b: seq<nat>)
    requires Ascending(a) && Ascending(b) && forall x :: x in a <==> x in b
    ensures a == b
  {
    if a != [] {
      var first := FirstIsMember(a);
      var other := FirstIsMember(b);
      assert first == other;
      var ta, tb := a[1..], b[1..];
      forall x
        ensures x in ta <==> x in tb
      {
        if x in ta { assert x in b && x != first; }
        if x in tb { assert x in a && x != first; }
      }
      SortedUnique(ta, tb);
      assert a == [first] + ta && b == [first] + tb;
    } else if b != [] {
      var other := FirstIsMember(b);
    }
  }

  // ------------------------------------------------------------------ picking by mask

  /** The devices whose bit is set in the mask, among the first `n`. */
  function Picked(devices: seq<nat>, mask: nat, n: nat): seq<nat>
    requires n <= |devices|
  {
    if n == 0 then []
    else Picked(devices, mask, n - 1) + if Bit(mask, n - 1) then [devices[n - 1]] else []
  }

  lemma AscendingMore(s: seq<nat>, last: nat)
    requires Ascending(s) && forall x :: x in s ==> x < last
    ensures Ascending(s + [last])
  {
    forall a, b | 0 <= a < b < |s| + 1
      ensures (s + [last])[a] < (s + [last])[b]
    {
      assert s[a] in s;
    }
  }

  lemma {:induction false} PickedMembers(devices: seq<nat>, mask: nat, n: nat)
    requires Ascending(devices) && n <= |devices|
    ensures Ascending(Picked(devices, mask, n))
    ensures forall x :: x in Picked(devices, mask, n) ==> x in devices[..n]
    ensures forall j :: 0 <= j < n ==> (devices[j] in Picked(devices, mask, n) <==> Bit(mask, j))
  {
    if n > 0 {
      PickedMembers(devices, mask, n - 1);
      var before, last := Picked(devices, mask, n - 1), devices[n - 1];
      assert devices[..n] == devices[..n - 1] + [last];
      forall x | x in before
        ensures x < last
      {
        var k :| 0 <= k < n - 1 && devices[..n - 1][k] == x;
        assert devices[k] == x;
      }
      assert last !in before;
      if Bit(mask, n - 1) { AscendingMore(before, last); }
      forall j | 0 <= j < n
        ensures devices[j] in Picked(devices, mask, n) <==> Bit(mask, j)
      {
        if j < n - 1 { assert devices[j] != last; }
      }
    }
  }

  /** Different masks pick different devices. */
  lemma PickedInjective(devices: seq<nat>, a: nat, b: nat)
    requires Ascending(devices) && a < Pow2(|devices|) && b < Pow2(|devices|)
    requires Picked(devices, a, |devices|) == Picked(devices, b, |devices|)
    ensures a == b
  {
    PickedMembers(devices, a, |devices|);
    PickedMembers(devices, b, |devices|);
    forall k: nat | k < |devices|
      ensures Bit(a, k) == Bit(b, k)
    {
      assert Bit(a, k) <==> devices[k] in Picked(devices, a, |devices|);
    }
    SameBits(a, b, |devices|);
  }

  /** Every non-empty subset is picked by a mask other than zero. */
  lemma SubsetIsPicked(devices: seq<nat>, chosen: set<nat>) returns (mask: nat)
    requires Ascending(devices) && chosen != {} && forall x :: x in chosen ==> x in devices
    ensures 0 < mask < Pow2(|devices|) && Picked(devices, mask, |devices|) == Sorted(chosen)
  {
    var positions := set j | 0 <= j < |devices| && devices[j] in chosen;
    mask := Mask(positions, |devices|);
    PickedMembers(devices, mask, |devices|);
    forall j: nat | j < |devices|
      ensures Bit(mask, j) <==> devices[j] in chosen
    {
      MaskBit(positions, |devices|, j);
    }
    var picked := Picked(devices, mask, |devices|);
    assert devices[..|devices|] == devices;
    forall x
      ensures x in picked <==> x in Sorted(chosen)
    {
      if x in devices {
        var j :| 0 <= j < |devices| && devices[j] == x;
        assert x in picked <==> Bit(mask, j);
      }
    }
    SortedUnique(picked, Sorted(chosen));
    if mask == 0 {
      var x :| x in chosen;
      var j :| 0 <= j < |devices| && devices[j] == x;
      ZeroHasNoBit(j);
    }
  }

  lemma NonZeroPicks(devices: seq<nat>, mask: nat)
    requires Ascending(devices) && 0 < mask < Pow2(|devices|)
    ensures Picked(devices, mask, |devices|) != []
  {
    if Picked(devices, mask, |devices|) == [] {
      PickedMembers(devices, mask, |devices|);
      forall k: nat | k < |devices|
        ensures Bit(mask, k) == Bit(0, k)
      {
        ZeroHasNoBit(k);
        assert devices[k] !in Picked(devices, mask, |devices|);
      }
      SameBits(mask, 0, |devices|);
    }
  }

  // ------------------------------------------------------------------ the order

  predicate LexLess(a: seq<nat>, b: seq<nat>) {
    if b == [] then false
    else if a == [] then true
    else a[0] < b[0] || (a[0] == b[0] && LexLess(a[1..], b[1..]))
  }

  /** By size, then lexicographically. */
  predicate Before(a: seq<nat>, b: seq<nat>) {
    |a| < |b| || (|a| == |b| && LexLess(a, b))
  }

  /** The two agree up to some index, where the first has ended or has the smaller number. */
  predicate LessFrom(a: seq<nat>, b: seq<nat>, k: nat) {
    k <= |a| && k < |b| && a[..k] == b[..k] && (k == |a| || a[k] < b[k])
  }

  lemma {:induction false} LexLessIff(a: seq<nat>, b: seq<nat>)
    ensures LexLess(a, b) <==> exists k: nat :: LessFrom(a, b, k)
  {
    if a != [] && b != [] && a[0] == b[0] {
      LexLessIff(a[1..], b[1..]);
      if k: nat :| LessFrom(a[1..], b[1..], k) {
        assert a[..k + 1] == [a[0]] + a[1..][..k] && b[..k + 1] == [b[0]] + b[1..][..k];
        assert LessFrom(a, b, k + 1);
      }
      if k: nat :| LessFrom(a, b, k) {
        assert k > 0 && a[1..][..k - 1] == a[..k][1..] && b[1..][..k - 1] == b[..k][1..];
        assert LessFrom(a[1..], b[1..], k - 1);
      }
    } else if LexLess(a, b) {
      assert LessFrom(a, b, 0);
    } else {
      forall k: nat
        ensures !LessFrom(a, b, k)
      {
        if k > 0 && k <= |a| && k < |b| { assert a[..k][0] != b[..k][0]; }
      }
    }
  }

  lemma {:induction false} LexTotal(a: seq<nat>, b: seq<nat>)
    ensures LexLess(a, b) || a == b || LexLess(b, a)
  {
    if a != [] && b != [] && a[0] == b[0] {
      LexTotal(a[1..], b[1..]);
      assert a == [a[0]] + a[1..] && b == [b[0]] + b[1..];
    }
  }

  lemma {:induction false} LexTransitive(a: seq<nat>, b: seq<nat>, c: seq<nat>)
    requires LexLess(a, b) && LexLess(b, c)
    ensures LexLess(a, c)
  {
    if a != [] && a[0] == b[0] && b[0] == c[0] { LexTransitive(a[1..], b[1..], c[1..]); }
  }

  lemma BeforeTransitive(a: seq<nat>, b: seq<nat>, c: seq<nat>)
    requires Before(a, b) && Before(b, c)
    ensures Before(a, c)
  {
    if |a| == |b| == |c| { LexTransitive(a, b, c); }
  }

  predicate InOrder(r: seq<seq<nat>>) {
    forall a, b :: 0 <= a < b < |r| ==> Before(r[a], r[b])
  }

  function Insert(c: seq<nat>, r: seq<seq<nat>>): (s: seq<seq<nat>>)
    ensures |s| == |r| + 1
  {
    if r == [] || Before(c, r[0]) then [c] + r else [r[0]] + Insert(c, r[1..])
  }

  lemma {:induction false} InsertMembers(c: seq<nat>, r: seq<seq<nat>>, x: seq<nat>)
    ensures x in Insert(c, r) <==> x == c || x in r
  {
    if r != [] && !Before(c, r[0]) {
      InsertMembers(c, r[1..], x);
      assert r == [r[0]] + r[1..];
    }
  }

  lemma {:induction false} InsertInOrder(c: seq<nat>, r: seq<seq<nat>>)
    requires InOrder(r) && c !in r
    ensures InOrder(Insert(c, r))
  {
    if r == [] {
    } else if Before(c, r[0]) {
      forall b | 0 < b < |r|
        ensures Before(c, r[b])
      {
        BeforeTransitive(c, r[0], r[b]);
      }
    } else {
      LexTotal(c, r[0]);
      assert Before(r[0], c);
      var tail := Insert(c, r[1..]);
      InsertInOrder(c, r[1..]);
      forall b | 0 <= b < |tail|
        ensures Before(r[0], tail[b])
      {
        InsertMembers(c, r[1..], tail[b]);
        if tail[b] != c {
          var k :| 0 <= k < |r[1..]| && r[1..][k] == tail[b];
          assert r[k + 1] == tail[b];
        }
      }
    }
  }

  function SortCombinations(r: seq<seq<nat>>): (s: seq<seq<nat>>)
    ensures |s| == |r|
  {
    if r == [] then [] else Insert(r[|r| - 1], SortCombinations(r[..|r| - 1]))
  }

  predicate Distinct(r: seq<seq<nat>>) {
    forall a, b :: 0 <= a < b < |r| ==> r[a] != r[b]
  }

  lemma {:induction false} SortedMembers(r: seq<seq<nat>>, x: seq<nat>)
    ensures x in SortCombinations(r) <==> x in r
  {
    if r != [] {
      SortedMembers(r[..|r| - 1], x);
      InsertMembers(r[|r| - 1], SortCombinations(r[..|r| - 1]), x);
      assert r == r[..|r| - 1] + [r[|r| - 1]];
    }
  }

  lemma {:induction false} SortedInOrder(r: seq<seq<nat>>)
    requires Distinct(r)
    ensures InOrder(SortCombinations(r))
  {
    if r != [] {
      var front, last := r[..|r| - 1], r[|r| - 1];
      SortedInOrder(front);
      SortedMembers(front, last);
      assert last !in front;
      InsertInOrder(last, SortCombinations(front));
    }
  }

  // ------------------------------------------------------------------ the loops

  /** Masks 1 up to `i` in order. */
  predicate PicksFirst(r: seq<seq<nat>>, devices: seq<nat>) {
    forall i :: 0 <= i < |r| ==> r[i] == Picked(devices, i + 1, |devices|)
  }

  method PickDevices(devices: seq<nat>, mask: nat) returns (combination: seq<nat>)
    ensures combination == Picked(devices, mask, |devices|)
  {
    combination := [];
    for j := 0 to |devices|
      invariant combination == Picked(devices, mask, j)
    {
      if Bit(mask, j) { combination := combination + [devices[j]]; }
    }
  }

  /** Every non-empty subset, once, each ascending, ordered by size and then lexicographically. */
  ghost predicate AllSubsets(r: seq<seq<nat>>, indices: set<nat>) {
    && InOrder(r)
    && |r| == Pow2(|indices|) - 1
    && (forall c :: c in r ==> c != [] && Ascending(c) && forall x :: x in c ==> x in indices)
    && (forall chosen: set<nat> {:trigger Sorted(chosen)} :: chosen != {} && chosen <= indices ==> Sorted(chosen) in r)
  }

  lemma PicksAreDistinct(picks: seq<seq<nat>>, devices: seq<nat>)
    requires Ascending(devices) && PicksFirst(picks, devices) && |picks| == Pow2(|devices|) - 1
    ensures Distinct(picks)
  {
    hide Picked;
    forall a, b | 0 <= a < b < |picks|
      ensures picks[a] != picks[b]
    {
      PicksDiffer(devices, a + 1, b + 1);
    }
  }

  lemma PicksDiffer(devices: seq<nat>, a: nat, b: nat)
    requires Ascending(devices) && a < b < Pow2(|devices|)
    ensures Picked(devices, a, |devices|) != Picked(devices, b, |devices|)
  {
    if Picked(devices, a, |devices|) == Picked(devices, b, |devices|) { PickedInjective(devices, a, b); }
  }

  lemma PicksAreSubsets(picks: seq<seq<nat>>, devices: seq<nat>, c: seq<nat>)
    requires Ascending(devices) && PicksFirst(picks, devices) && |picks| == Pow2(|devices|) - 1 && c in picks
    ensures c != [] && Ascending(c) && forall x :: x in c ==> x in devices
  {
    hide Picked, Pow2, Ascending;
    var i :| 0 <= i < |picks| && picks[i] == c;
    NonZeroPicks(devices, i + 1);
    PickedMembers(devices, i + 1, |devices|);
    assert devices[..|devices|] == devices;
  }

  lemma SubsetsArePicks(picks: seq<seq<nat>>, devices: seq<nat>, chosen: set<nat>)
    requires Ascending(devices) && PicksFirst(picks, devices) && |picks| == Pow2(|devices|) - 1
    requires chosen != {} && forall x :: x in chosen ==> x in devices
    ensures Sorted(chosen) in picks
  {
    hide Picked, Pow2, Sorted;
    var mask := SubsetIsPicked(devices, chosen);
    assert picks[mask - 1] == Sorted(chosen);
  }

  lemma PicksAreAllSubsets(picks: seq<seq<nat>>, indices: set<nat>)
    requires PicksFirst(picks, Sorted(indices)) && |picks| == Pow2(|indices|) - 1
    ensures AllSubsets(SortCombinations(picks), indices)
  {
    hide PicksFirst, Pow2, Sorted, InOrder, Distinct, Ascending, SortCombinations;
    var devices := Sorted(indices);
    PicksAreDistinct(picks, devices);
    SortedInOrder(picks);
    var r := SortCombinations(picks);
    forall c | c in r
      ensures c != [] && Ascending(c) && forall x :: x in c ==> x in indices
    {
      SortedMembers(picks, c);
      PicksAreSubsets(picks, devices, c);
    }
    forall chosen: set<nat> | chosen != {} && chosen <= indices
      ensures Sorted(chosen) in r
    {
      SubsetsArePicks(picks, devices, chosen);
      SortedMembers(picks, Sorted(chosen));
    }
  }

  method GetDeviceCombinations(indices: set<nat>) returns (all: seq<seq<nat>>)
    ensures AllSubsets(all, indices)
  {
    var devices := Sorted(indices);
    var n := |devices|;
    all := [];
    if n > 0 {
      var i := 1;
      while i < Pow2(n)
        invariant 1 <= i <= Pow2(n) && |all| == i - 1 && PicksFirst(all, devices)
      {
        var combination := PickDevices(devices, i);
        NonZeroPicks(devices, i);
        if combination != [] { all := all + [combination]; }
        i := i + 1;
      }
    }
    PicksAreAllSubsets(all, indices);
    all := SortCombinations(all);
  }
}
