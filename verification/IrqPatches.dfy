/** `get_hex_from_irqs`: the replacement of every stored IRQ run, with some or all of its IRQs removed. */
module IrqPatches {
  import opened Options
  import opened Text
  import opened Bits
  import opened IrqFormat
  import opened IrqMasks

  datatype IrqPatch = IrqPatch(find: string, repl: string, index: int, changed: bool)

  /** `removed` is one list shared by all patches of a call. */
  datatype Patches = Patches(patches: seq<IrqPatch>, removed: seq<int>)

  function MasksOf(values: seq<string>, toInt: string -> Option<int>): (masks: seq<nat>)
    ensures |masks| == |values|
  {
    seq(|values|, j requires 0 <= j < |values| => MaskOf(values[j], toInt))
  }

  function ClearEach(masks: seq<nat>, irq: int): (r: seq<nat>)
    ensures |r| == |masks|
  {
    seq(|masks|, j requires 0 <= j < |masks| => Clear(masks[j], irq))
  }

  /** The masks after the first `n` removals. */
  function Cleared(masks: seq<nat>, irqs: seq<int>, n: nat): (r: seq<nat>)
    requires n <= |irqs|
    ensures |r| == |masks|
  {
    if n == 0 then masks else ClearEach(Cleared(masks, irqs, n - 1), irqs[n - 1])
  }

  /** The removal with number `n` changed something. */
  predicate Changes(masks: seq<nat>, irqs: seq<int>, n: nat) {
    0 < n <= |irqs| && Cleared(masks, irqs, n) != Cleared(masks, irqs, n - 1)
  }

  /** Those of the first `n` removals whose number is selected. */
  function Selected(irqs: seq<int>, n: nat, selects: nat -> bool): seq<int>
    requires n <= |irqs|
  {
    if n == 0 then [] else Selected(irqs, n - 1, selects) + if selects(n) then [irqs[n - 1]] else []
  }

  /** Those of the first `n` removals that changed something. */
  function Effective(masks: seq<nat>, irqs: seq<int>, n: nat): seq<int>
    requires n <= |irqs|
  {
    Selected(irqs, n, (k: nat) => Changes(masks, irqs, k))
  }

  function Zeros(n: nat): seq<nat> { seq(n, _ => 0) }

  /** Without a list of IRQs to remove, all of them go. */
  function ReplacedMasks(find: seq<nat>, irqs: seq<int>): (r: seq<nat>)
    ensures |r| == |find|
  {
    if irqs == [] then Zeros(|find|) else Cleared(find, irqs, |irqs|)
  }

  function PatchOf(r: Run, irqs: seq<int>, toInt: string -> Option<int>): IrqPatch {
    var find := MasksOf(r.values, toInt);
    var hex, other := Descriptors(find), Descriptors(ReplacedMasks(find, irqs));
    IrqPatch(hex, other, r.index, hex != other)
  }

  function OwnEffective(r: Run, irqs: seq<int>, toInt: string -> Option<int>): seq<int> {
    Effective(MasksOf(r.values, toInt), irqs, |irqs|)
  }

  /** The patches and effective removals of the first `n` runs, put together. */
  function Collected(runs: seq<Run>, n: nat, patchOf: Run -> IrqPatch, own: Run -> seq<int>): Patches
    requires n <= |runs|
  {
    if n == 0 then Patches([], [])
    else
      var before, r := Collected(runs, n - 1, patchOf, own), runs[n - 1];
      Patches(before.patches + [patchOf(r)], before.removed + own(r))
  }

  function PatchesOf(runs: seq<Run>, irqs: seq<int>, toInt: string -> Option<int>): Patches {
    Collected(runs, |runs|, r => PatchOf(r, irqs, toInt), r => OwnEffective(r, irqs, toInt))
  }

  // ------------------------------------------------------------------ exactly the requested bits go

  /** IRQ `k` is among the first `n` removals; a negative number stands for IRQ 0. */
  predicate Requested(irqs: seq<int>, n: nat, k: nat)
    requires n <= |irqs|
  {
    exists j :: 0 <= j < n && AtLeastZero(irqs[j]) == k
  }

  lemma MasksAreWords(values: seq<string>, toInt: string -> Option<int>)
    ensures Words(MasksOf(values, toInt))
  {
    forall j | 0 <= j < |values|
      ensures MasksOf(values, toInt)[j] < WORD
    {
      MaskIsListedIrqs(values[j], toInt, 0);
    }
  }

  lemma {:induction false} ClearedBits(masks: seq<nat>, irqs: seq<int>, n: nat, j: nat, k: nat)
    requires n <= |irqs| && j < |masks| && Words(masks)
    ensures Cleared(masks, irqs, n)[j] < WORD
    ensures Bit(Cleared(masks, irqs, n)[j], k) <==> Bit(masks[j], k) && !Requested(irqs, n, k)
  {
    if n > 0 {
      ClearedBits(masks, irqs, n - 1, j, k);
      ClearedBit(Cleared(masks, irqs, n - 1)[j], irqs[n - 1], k);
      RequestedOneMore(irqs, n, k);
    }
  }

  lemma RequestedOneMore(irqs: seq<int>, n: nat, k: nat)
    requires 0 < n <= |irqs|
    ensures Requested(irqs, n, k) <==> Requested(irqs, n - 1, k) || AtLeastZero(irqs[n - 1]) == k
  { }

  lemma ClearedAreWords(masks: seq<nat>, irqs: seq<int>, n: nat)
    requires n <= |irqs| && Words(masks)
    ensures Words(Cleared(masks, irqs, n))
  {
    forall j | 0 <= j < |masks|
      ensures Cleared(masks, irqs, n)[j] < WORD
    {
      ClearedBits(masks, irqs, n, j, 0);
    }
  }

  /**
   * Reading find and replacement as IRQ Descriptors: the same number of them and the same length. The found ones hold
   * the numbers from 0 to 15 that stand between the commas of the run's values; the replacing ones the same without the
   * requested IRQs, or none at all when no list is given.
   */
  lemma ReplacementClears(r: Run, irqs: seq<int>, toInt: string -> Option<int>, j: nat, k: nat)
    requires j < |r.values|
    ensures
      var p := PatchOf(r, irqs, toInt);
      var find, repl := ReadDescriptors(p.find), ReadDescriptors(p.repl);
      |p.find| == |p.repl| == 6 * |r.values| && find.Some? && repl.Some? &&
      |find.value| == |repl.value| == |r.values| &&
      (Bit(find.value[j], k) <==>
         k <= 15 && exists item :: item in Split(r.values[j], ',') && item != "#" && toInt(item) == Some(k)) &&
      (Bit(repl.value[j], k) <==> Bit(find.value[j], k) && irqs != [] && !Requested(irqs, |irqs|, k))
  {
    var find := MasksOf(r.values, toInt);
    MasksAreWords(r.values, toInt);
    DescriptorsRoundTrip(find);
    MaskIsListedIrqs(r.values[j], toInt, k);
    var repl := ReplacedMasks(find, irqs);
    if irqs == [] {
      ZeroHasNoBit(k);
    } else {
      ClearedBits(find, irqs, |irqs|, j, k);
      ClearedAreWords(find, irqs, |irqs|);
    }
    DescriptorsRoundTrip(repl);
  }

  /** Some value of the run has IRQ `x`. */
  predicate HasIrq(r: Run, toInt: string -> Option<int>, x: nat) {
    exists j: nat {:trigger r.values[j]} :: j < |r.values| && Lists(r.values[j], toInt, x)
  }

  predicate ToRemove(irqs: seq<int>, k: nat) { irqs == [] || Requested(irqs, |irqs|, k) }

  lemma ReplacedBits(find: seq<nat>, irqs: seq<int>, j: nat, k: nat)
    requires j < |find| && Words(find)
    ensures ReplacedMasks(find, irqs)[j] < WORD
    ensures Bit(ReplacedMasks(find, irqs)[j], k) <==> Bit(find[j], k) && !ToRemove(irqs, k)
  {
    if irqs == [] { ZeroHasNoBit(k); } else { ClearedBits(find, irqs, |irqs|, j, k); }
  }

  lemma UnchangedKeeps(find: seq<nat>, irqs: seq<int>, j: nat, k: nat)
    requires j < |find| && Words(find) && ReplacedMasks(find, irqs) == find && ToRemove(irqs, k)
    ensures !Bit(find[j], k)
  {
    ReplacedBits(find, irqs, j, k);
  }

  lemma ChangedWitness(find: seq<nat>, irqs: seq<int>) returns (j: nat, k: nat)
    requires Words(find) && ReplacedMasks(find, irqs) != find
    ensures j < |find| && Bit(find[j], k) && ToRemove(irqs, k)
  {
    j :| j < |find| && find[j] != ReplacedMasks(find, irqs)[j];
    ReplacedBits(find, irqs, j, 0);
    k := DifferingBit(find[j], ReplacedMasks(find, irqs)[j]);
    ReplacedBits(find, irqs, j, k);
  }

  lemma ReplacedAreWords(find: seq<nat>, irqs: seq<int>)
    requires Words(find)
    ensures Words(ReplacedMasks(find, irqs))
  {
    if irqs != [] { ClearedAreWords(find, irqs, |irqs|); }
  }

  /** A patch changes something exactly when some IRQ of the run is to be removed. */
  lemma ChangedIff(r: Run, irqs: seq<int>, toInt: string -> Option<int>)
    ensures PatchOf(r, irqs, toInt).changed <==>
      exists k: nat {:trigger HasIrq(r, toInt, k)} :: HasIrq(r, toInt, k) && ToRemove(irqs, k)
  {
    var find := MasksOf(r.values, toInt);
    MasksAreWords(r.values, toInt);
    ReplacedAreWords(find, irqs);
    DescriptorsInjective(find, ReplacedMasks(find, irqs));
    if ReplacedMasks(find, irqs) == find {
      forall k: nat | HasIrq(r, toInt, k)
        ensures !ToRemove(irqs, k)
      {
        var j: nat :| j < |r.values| && Lists(r.values[j], toInt, k);
        MaskIsListedIrqs(r.values[j], toInt, k);
        if ToRemove(irqs, k) { UnchangedKeeps(find, irqs, j, k); }
      }
    } else {
      var j, k := ChangedWitness(find, irqs);
      MaskIsListedIrqs(r.values[j], toInt, k);
      assert HasIrq(r, toInt, k);
    }
  }

  lemma DifferingBit(a: nat, b: nat) returns (k: nat)
    requires a < WORD && b < WORD && a != b
    ensures Bit(a, k) != Bit(b, k)
  {
    WordIsPow2();
    if forall i: nat {:trigger Bit(a, i)} {:trigger Bit(b, i)} :: i < 16 ==> Bit(a, i) == Bit(b, i) {
      SameBits(a, b, 16);
    }
    k :| Bit(a, k) != Bit(b, k);
  }

  // ------------------------------------------------------------------ the reported removals

  /** Clearing an IRQ changes the masks exactly when one of them has it. */
  lemma ClearEachChanges(masks: seq<nat>, irq: int)
    requires Words(masks)
    ensures ClearEach(masks, irq) != masks <==>
      exists j: nat {:trigger masks[j]} :: j < |masks| && Bit(masks[j], AtLeastZero(irq))
  {
    var i := AtLeastZero(irq);
    if ClearEach(masks, irq) == masks {
      forall j: nat | j < |masks|
        ensures !Bit(masks[j], i)
      {
        ClearedBit(masks[j], irq, i);
        assert ClearEach(masks, irq)[j] == Clear(masks[j], irq);
      }
    } else {
      var j: nat :| j < |masks| && Clear(masks[j], irq) != masks[j];
      ClearedBit(masks[j], irq, 0);
      var k := DifferingBit(masks[j], Clear(masks[j], irq));
      ClearedBit(masks[j], irq, k);
    }
  }

  /** Some mask has IRQ `x`. */
  predicate SomeBit(masks: seq<nat>, x: nat) {
    exists j: nat {:trigger masks[j]} :: j < |masks| && Bit(masks[j], x)
  }

  /** `x` stands among the first `n` removals, before any other that stands for the same IRQ. */
  predicate FirstRequest(irqs: seq<int>, n: nat, x: int)
    requires n <= |irqs|
  {
    exists k: nat {:trigger irqs[k]} :: k < n && irqs[k] == x && !Requested(irqs, k, AtLeastZero(x))
  }

  lemma {:induction false} SelectedIff(irqs: seq<int>, n: nat, selects: nat -> bool, x: int, has: bool)
    requires n <= |irqs|
    requires forall k: nat {:trigger selects(k)} ::
      0 < k <= n && irqs[k - 1] == x ==> (selects(k) <==> !Requested(irqs, k - 1, AtLeastZero(x)) && has)
    ensures x in Selected(irqs, n, selects) <==> FirstRequest(irqs, n, x) && has
  {
    if n > 0 {
      SelectedIff(irqs, n - 1, selects, x, has);
      assert x in Selected(irqs, n, selects) <==>
        x in Selected(irqs, n - 1, selects) || (selects(n) && irqs[n - 1] == x);
    }
  }

  /** One run reports exactly the first requests of IRQs that it has. */
  lemma EffectiveIff(masks: seq<nat>, irqs: seq<int>, n: nat, x: int)
    requires n <= |irqs| && Words(masks)
    ensures x in Effective(masks, irqs, n) <==> FirstRequest(irqs, n, x) && SomeBit(masks, AtLeastZero(x))
  {
    forall k: nat | 0 < k <= n && irqs[k - 1] == x
      ensures Changes(masks, irqs, k) <==> !Requested(irqs, k - 1, AtLeastZero(x)) && SomeBit(masks, AtLeastZero(x))
    {
      LastIsEffective(masks, irqs, k, x);
    }
    SelectedIff(irqs, n, (k: nat) => Changes(masks, irqs, k), x, SomeBit(masks, AtLeastZero(x)));
  }

  lemma LastIsEffective(masks: seq<nat>, irqs: seq<int>, n: nat, x: int)
    requires 0 < n <= |irqs| && Words(masks) && x == irqs[n - 1]
    ensures Cleared(masks, irqs, n) != Cleared(masks, irqs, n - 1) <==>
      !Requested(irqs, n - 1, AtLeastZero(x)) && SomeBit(masks, AtLeastZero(x))
  {
    var before, i := Cleared(masks, irqs, n - 1), AtLeastZero(x);
    ClearedAreWords(masks, irqs, n - 1);
    ClearEachChanges(before, x);
    forall j: nat | j < |masks|
      ensures Bit(before[j], i) <==> Bit(masks[j], i) && !Requested(irqs, n - 1, i)
    {
      ClearedBits(masks, irqs, n - 1, j, i);
    }
  }

  /** Of natural numbers, one that is requested at all is requested first somewhere. */
  lemma {:induction false} FirstRequestOfNatural(irqs: seq<int>, n: nat, x: nat)
    requires n <= |irqs| && forall j :: 0 <= j < |irqs| ==> irqs[j] >= 0
    ensures FirstRequest(irqs, n, x) <==> x in irqs[..n]
    ensures Requested(irqs, n, x) <==> x in irqs[..n]
  {
    if n > 0 {
      FirstRequestOfNatural(irqs, n - 1, x);
      RequestedOneMore(irqs, n, x);
      assert irqs[..n] == irqs[..n - 1] + [irqs[n - 1]];
    }
  }

  lemma RunEffectiveIff(r: Run, irqs: seq<int>, toInt: string -> Option<int>, x: int)
    ensures x in OwnEffective(r, irqs, toInt) <==> FirstRequest(irqs, |irqs|, x) && HasIrq(r, toInt, AtLeastZero(x))
  {
    var masks, i := MasksOf(r.values, toInt), AtLeastZero(x);
    MasksAreWords(r.values, toInt);
    EffectiveIff(masks, irqs, |irqs|, x);
    if j: nat :| j < |masks| && Bit(masks[j], i) {
      MaskIsListedIrqs(r.values[j], toInt, i);
    }
    if HasIrq(r, toInt, i) {
      var j: nat :| j < |r.values| && Lists(r.values[j], toInt, i);
      MaskIsListedIrqs(r.values[j], toInt, i);
      assert masks[j] == MaskOf(r.values[j], toInt);
    }
  }

  /** One of the first `n` runs has the property. */
  predicate SomeHas(runs: seq<Run>, n: nat, has: Run -> bool)
    requires n <= |runs|
  {
    exists a: nat {:trigger runs[a]} :: a < n && has(runs[a])
  }

  lemma SomeHasOneMore(runs: seq<Run>, n: nat, has: Run -> bool)
    requires 0 < n <= |runs|
    ensures SomeHas(runs, n, has) <==> SomeHas(runs, n - 1, has) || has(runs[n - 1])
  { }

  lemma {:induction false} CollectedIff(runs: seq<Run>, n: nat, patchOf: Run -> IrqPatch, own: Run -> seq<int>, x: int,
                                        wanted: bool, has: Run -> bool)
    requires n <= |runs|
    requires forall k: nat {:trigger runs[k]} :: k < n ==> (x in own(runs[k]) <==> wanted && has(runs[k]))
    ensures x in Collected(runs, n, patchOf, own).removed <==> wanted && SomeHas(runs, n, has)
  {
    if n > 0 {
      CollectedIff(runs, n - 1, patchOf, own, x, wanted, has);
      SomeHasOneMore(runs, n, has);
    }
  }

  lemma EffectiveInRuns(runs: seq<Run>, irqs: seq<int>, toInt: string -> Option<int>, x: int,
                        patchOf: Run -> IrqPatch, own: Run -> seq<int>, has: Run -> bool)
    requires forall r: Run {:trigger own(r)} :: own(r) == OwnEffective(r, irqs, toInt)
    requires forall r: Run {:trigger has(r)} :: has(r) == HasIrq(r, toInt, AtLeastZero(x))
    ensures x in Collected(runs, |runs|, patchOf, own).removed <==>
      FirstRequest(irqs, |irqs|, x) && SomeHas(runs, |runs|, has)
  {
    forall k: nat | k < |runs|
      ensures x in own(runs[k]) <==> FirstRequest(irqs, |irqs|, x) && has(runs[k])
    {
      RunEffectiveIff(runs[k], irqs, toInt, x);
    }
    CollectedIff(runs, |runs|, patchOf, own, x, FirstRequest(irqs, |irqs|, x), has);
  }

  /** Some run has IRQ `i`. */
  predicate SomeRunHas(runs: seq<Run>, toInt: string -> Option<int>, i: nat) {
    SomeHas(runs, |runs|, r => HasIrq(r, toInt, i))
  }

  /**
   * The shared list holds exactly the requests of IRQs that some run of the device has, each IRQ by its first request
   * only; for natural numbers that is every requested IRQ that some run has.
   */
  lemma RemovedIff(runs: seq<Run>, irqs: seq<int>, toInt: string -> Option<int>, x: int)
    ensures x in PatchesOf(runs, irqs, toInt).removed <==>
      FirstRequest(irqs, |irqs|, x) && SomeRunHas(runs, toInt, AtLeastZero(x))
    ensures (forall j :: 0 <= j < |irqs| ==> irqs[j] >= 0) ==>
      (x in PatchesOf(runs, irqs, toInt).removed <==> x in irqs && SomeRunHas(runs, toInt, AtLeastZero(x)))
  {
    EffectiveInRuns(runs, irqs, toInt, x, r => PatchOf(r, irqs, toInt), r => OwnEffective(r, irqs, toInt),
                    r => HasIrq(r, toInt, AtLeastZero(x)));
    if forall j :: 0 <= j < |irqs| ==> irqs[j] >= 0 { RequestOfNatural(irqs, x); }
  }

  lemma RequestOfNatural(irqs: seq<int>, x: int)
    requires forall j :: 0 <= j < |irqs| ==> irqs[j] >= 0
    ensures FirstRequest(irqs, |irqs|, x) <==> x in irqs
  {
    assert irqs[..|irqs|] == irqs;
    if x >= 0 { FirstRequestOfNatural(irqs, |irqs|, x); }
  }

  lemma {:induction false} CollectedAt(runs: seq<Run>, n: nat, patchOf: Run -> IrqPatch, own: Run -> seq<int>, k: nat)
    requires k < n <= |runs|
    ensures |Collected(runs, n, patchOf, own).patches| == n
    ensures Collected(runs, n, patchOf, own).patches[k] == patchOf(runs[k])
  {
    if n > 1 { CollectedAt(runs, n - 1, patchOf, own, if k < n - 1 then k else 0); }
  }

  /** One patch for every run, in order, with its hex index. */
  lemma PatchOfEveryRun(runs: seq<Run>, irqs: seq<int>, toInt: string -> Option<int>, k: nat)
    requires k < |runs|
    ensures |PatchesOf(runs, irqs, toInt).patches| == |runs|
    ensures PatchesOf(runs, irqs, toInt).patches[k] == PatchOf(runs[k], irqs, toInt)
    ensures PatchesOf(runs, irqs, toInt).patches[k].index == runs[k].index
  {
    CollectedAt(runs, |runs|, r => PatchOf(r, irqs, toInt), r => OwnEffective(r, irqs, toInt), k);
  }

  // ------------------------------------------------------------------ the loops of the source

  method GetIntForLine(line: string, toInt: string -> Option<int>) returns (list: seq<nat>)
    ensures list == MasksOf(Split(line, ':'), toInt)
  {
    var items := Split(line, ':');
    list := [];
    for j := 0 to |items|
      invariant list == MasksOf(items, toInt)[..j]
    {
      var mask := SameLineIrq(items[j], toInt);
      list := list + [mask];
    }
  }

  method RemoveIrqs(find: seq<nat>, irqs: seq<int>) returns (repl: seq<nat>, removed: seq<int>)
    ensures repl == Cleared(find, irqs, |irqs|) && removed == Effective(find, irqs, |irqs|)
  {
    repl, removed := find, [];
    ghost var selects := (k: nat) => Changes(find, irqs, k);
    for n := 0 to |irqs|
      invariant repl == Cleared(find, irqs, n) && removed == Selected(irqs, n, selects)
    {
      var changed := ClearEach(repl, irqs[n]);
      if changed != repl { removed := removed + [irqs[n]]; }
      repl := changed;
    }
  }

  /** One turn of the loop: the run of one part, its patch, and the removals that changed it. */
  method PatchPart(part: string, irqs: seq<int>, toInt: string -> Option<int>)
    returns (r: Option<Run>, patch: IrqPatch, gone: seq<int>)
    ensures r == DecodeRun(part, toInt)
    ensures r.Some? ==> patch == PatchOf(r.value, irqs, toInt) && gone == OwnEffective(r.value, irqs, toInt)
  {
    patch, gone := IrqPatch("", "", 0, false), [];
    var fields := Split(part, '|');
    if |fields| != 2 || toInt(fields[0]).None? { return None, patch, gone; }
    var index := toInt(fields[0]).value;
    var find := GetIntForLine(fields[1], toInt);
    var repl: seq<nat> := Zeros(|find|);
    if irqs != [] { repl, gone := RemoveIrqs(find, irqs); }
    var hex, other := Descriptors(find), Descriptors(repl);
    r, patch := Some(Run(index, Split(fields[1], ':'))), IrqPatch(hex, other, index, hex != other);
  }

  /** After `a` parts: the decoded runs, their patches, and their effective removals. */
  ghost predicate Progress(parts: seq<string>, a: nat, decode: string -> Option<Run>, runs: seq<Run>,
                           patchOf: Run -> IrqPatch, own: Run -> seq<int>, patches: seq<IrqPatch>, removed: seq<int>)
    requires a <= |parts|
  {
    DecodeEach(parts[..a], decode) == Some(runs) && Collected(runs, |runs|, patchOf, own) == Patches(patches, removed)
  }

  lemma ProgressStep(parts: seq<string>, a: nat, decode: string -> Option<Run>, runs: seq<Run>,
                     patchOf: Run -> IrqPatch, own: Run -> seq<int>, patches: seq<IrqPatch>, removed: seq<int>, r: Run)
    requires a < |parts| && Progress(parts, a, decode, runs, patchOf, own, patches, removed)
    requires decode(parts[a]) == Some(r)
    ensures Progress(parts, a + 1, decode, runs + [r], patchOf, own, patches + [patchOf(r)], removed + own(r))
  {
    assert parts[..a + 1] == parts[..a] + [parts[a]];
    DecodeAppended(parts[..a], parts[a], decode);
    CollectedOneMore(runs, r, patchOf, own);
  }

  /** `None` where the source raises on a malformed string. */
  method GetHexFromIrqs(irq: string, irqs: seq<int>, toInt: string -> Option<int>) returns (result: Option<Patches>)
    ensures result ==
      match Decode(irq, toInt)
      case None => None
      case Some(runs) => Some(PatchesOf(runs, irqs, toInt))
  {
    var parts := Split(irq, '-');
    var patches, removed := [], [];
    ghost var decode := part => DecodeRun(part, toInt);
    ghost var patchOf, own := (r: Run) => PatchOf(r, irqs, toInt), (r: Run) => OwnEffective(r, irqs, toInt);
    ghost var runs: seq<Run> := [];
    for a := 0 to |parts|
      invariant Progress(parts, a, decode, runs, patchOf, own, patches, removed)
    {
      var r, patch, gone := PatchPart(parts[a], irqs, toInt);
      if r.None? {
        BadPart(parts, a, decode);
        return None;
      }
      ProgressStep(parts, a, decode, runs, patchOf, own, patches, removed, r.value);
      runs := runs + [r.value];
      patches, removed := patches + [patch], removed + gone;
    }
    assert parts[..|parts|] == parts;
    result := Some(Patches(patches, removed));
  }

  lemma {:induction false} DecodeAppended(parts: seq<string>, last: string, decode: string -> Option<Run>)
    requires DecodeEach(parts, decode).Some? && decode(last).Some?
    ensures DecodeEach(parts + [last], decode) == Some(DecodeEach(parts, decode).value + [decode(last).value])
  {
    var r := decode(last).value;
    if parts == [] {
      assert parts + [last] == [last] && [last][1..] == [];
      assert DecodeEach([], decode) == Some([]) && [r] + [] == [r] && [] + [r] == [r];
    } else {
      DecodeAppended(parts[1..], last, decode);
      var first, rest := decode(parts[0]).value, DecodeEach(parts[1..], decode).value;
      assert (parts + [last])[1..] == parts[1..] + [last] && (parts + [last])[0] == parts[0];
      assert [first] + (rest + [r]) == [first] + rest + [r];
    }
  }

  lemma {:induction false} CollectedPrefix(runs: seq<Run>, more: seq<Run>, n: nat, patchOf: Run -> IrqPatch,
                                           own: Run -> seq<int>)
    requires n <= |runs|
    ensures Collected(runs + more, n, patchOf, own) == Collected(runs, n, patchOf, own)
  {
    if n > 0 {
      CollectedPrefix(runs, more, n - 1, patchOf, own);
      assert (runs + more)[n - 1] == runs[n - 1];
    }
  }

  lemma CollectedOneMore(runs: seq<Run>, r: Run, patchOf: Run -> IrqPatch, own: Run -> seq<int>)
    ensures
      var before := Collected(runs, |runs|, patchOf, own);
      Collected(runs + [r], |runs| + 1, patchOf, own) ==
        Patches(before.patches + [patchOf(r)], before.removed + own(r))
  {
    CollectedPrefix(runs, [r], |runs|, patchOf, own);
  }
}
