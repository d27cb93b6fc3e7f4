/**
 * What `list_irqs` stores, told by the lines of the listing alone: which lines hold the values of which device, where
 * runs of adjacent descriptors begin and end, and which line of hex each run carries.
 */
module IrqRuns {
  import opened Options
  import opened IrqFormat
  import opened IrqListing

  // ------------------------------------------------------------------ reading a listing

  /** The text line before line `i` announces IRQ values. */
  predicate Announced(lines: seq<Line>, i: nat)
    requires i <= |lines|
    decreases i, 0
  {
    i > 0 && if lines[i - 1].Hex? then Announced(lines, i - 1) else Announces(lines, i - 1)
  }

  predicate HoldsValues(lines: seq<Line>, i: nat)
    requires i < |lines|
    decreases i, 1
  {
    lines[i].Text? && Announced(lines, i)
  }

  /** An `IRQNoFlags` line inside a device; a line read as values announces nothing. */
  predicate Announces(lines: seq<Line>, i: nat)
    requires i < |lines|
    decreases i, 2
  {
    lines[i].Text? && lines[i].irqNoFlags && lines[i].device.None? && !lines[i].hid &&
    DeviceAt(lines, i) !in {None, Some("")} && !HoldsValues(lines, i)
  }

  /** The device of the last `Device (` line before line `i`. */
  function DeviceAt(lines: seq<Line>, i: nat): Option<string>
    requires i <= |lines|
    decreases i, 0
  {
    if i == 0 then None
    else if OpensDevice(lines, i - 1) then lines[i - 1].device
    else DeviceAt(lines, i - 1)
  }

  predicate OpensDevice(lines: seq<Line>, i: nat)
    requires i < |lines|
    decreases i, 2
  {
    lines[i].Text? && lines[i].device.Some? && !HoldsValues(lines, i)
  }

  predicate ValuesFor(lines: seq<Line>, i: nat, name: string)
    requires i < |lines|
  {
    HoldsValues(lines, i) && DeviceAt(lines, i) == Some(name)
  }

  /** Between two descriptors in a row stand only such lines. */
  predicate KeepsRow(line: Line) {
    line.Hex? || (line.device.None? && (line.hid || line.irqNoFlags || line.filler))
  }

  /** Up to line `n` nothing breaks the row after the values on line `j`. */
  ghost predicate InRowWith(lines: seq<Line>, j: nat, n: nat)
    requires n <= |lines|
  {
    j < n && HoldsValues(lines, j) && forall k :: j < k < n ==> KeepsRow(lines[k]) && !HoldsValues(lines, k)
  }

  ghost predicate InRow(lines: seq<Line>, n: nat)
    requires n <= |lines|
  {
    exists j: nat :: InRowWith(lines, j, n)
  }

  /** The values on line `i` begin a run for the device `name`. */
  ghost predicate StartsRun(lines: seq<Line>, i: nat, name: string)
    requires i < |lines|
  {
    ValuesFor(lines, i, name) && !InRow(lines, i)
  }

  /** The lines before `n` that begin a run for `name`, ascending. */
  ghost function StartsOf(lines: seq<Line>, n: nat, name: string): seq<nat>
    requires n <= |lines|
  {
    if n == 0 then []
    else StartsOf(lines, n - 1, name) + if StartsRun(lines, n - 1, name) then [n - 1] else []
  }

  function ValueTextOf(line: Line): string {
    if line.Text? && line.values.Some? && line.values.value != "" then line.values.value else "#"
  }

  /** The values of the device `name` from line `i` up to, not including, line `j`. */
  function ValuesOf(lines: seq<Line>, i: nat, j: nat, name: string): seq<string>
    requires i <= j <= |lines|
    decreases j
  {
    if i == j then []
    else ValuesOf(lines, i, j - 1, name) + if ValuesFor(lines, j - 1, name) then [ValueTextOf(lines[j - 1])] else []
  }

  function EndOf(starts: seq<nat>, k: nat, n: nat): nat { if k + 1 < |starts| then starts[k + 1] else n }

  /** The `k`-th of the runs that begin on the lines `starts`: its hex index, and the values up to the next run. */
  ghost predicate IsRun(lines: seq<Line>, n: nat, name: string, starts: seq<nat>, k: nat, run: Run)
    requires n <= |lines| && k < |starts|
  {
    run.index == NextHexLine(lines, starts[k]) &&
    starts[k] < EndOf(starts, k, n) <= n && run.values == ValuesOf(lines, starts[k], EndOf(starts, k, n), name)
  }

  ghost predicate AreRuns(lines: seq<Line>, n: nat, name: string, starts: seq<nat>, runs: seq<Run>)
    requires n <= |lines|
  {
    |runs| == |starts| && forall k: nat {:trigger runs[k]} :: k < |starts| ==> IsRun(lines, n, name, starts, k, runs[k])
  }

  function RunsIn(devices: map<string, Device>, name: string): seq<Run> {
    if name in devices then devices[name].runs else []
  }

  // ------------------------------------------------------------------ the pass agrees with the reading

  lemma InRowStep(lines: seq<Line>, n: nat)
    requires 0 < n <= |lines|
    ensures InRow(lines, n) <==>
              HoldsValues(lines, n - 1) || (KeepsRow(lines[n - 1]) && InRow(lines, n - 1))
  {
    if InRow(lines, n) {
      var j: nat :| InRowWith(lines, j, n);
      assert j == n - 1 || InRowWith(lines, j, n - 1);
    }
    if HoldsValues(lines, n - 1) {
      assert InRowWith(lines, n - 1, n);
    } else if KeepsRow(lines[n - 1]) && InRow(lines, n - 1) {
      var j: nat :| InRowWith(lines, j, n - 1);
      assert InRowWith(lines, j, n);
    }
  }

  /** What one more line does to the reading, seen from the line before it. */
  lemma ReadingStep(lines: seq<Line>, n: nat)
    requires 0 < n <= |lines|
    ensures
      var line, irq, current := lines[n - 1], Announced(lines, n - 1), DeviceAt(lines, n - 1);
      HoldsValues(lines, n - 1) == (line.Text? && irq) &&
      Announced(lines, n) == (if line.Hex? then irq
                              else !irq && line.device.None? && !line.hid && line.irqNoFlags && Given(current)) &&
      DeviceAt(lines, n) == (if line.Text? && !irq && line.device.Some? then line.device else current)
  {
    assert HoldsValues(lines, n - 1) == (lines[n - 1].Text? && Announced(lines, n - 1));
    assert Announces(lines, n - 1) ==
      (lines[n - 1].Text? && lines[n - 1].irqNoFlags && lines[n - 1].device.None? && !lines[n - 1].hid &&
       Given(DeviceAt(lines, n - 1)) && !HoldsValues(lines, n - 1));
    assert OpensDevice(lines, n - 1) ==
      (lines[n - 1].Text? && lines[n - 1].device.Some? && !HoldsValues(lines, n - 1));
  }

  lemma FlagsStep(s: State, line: Line, index: int)
    requires (s.irq || s.last ==> Given(s.current)) && Step(s, line, index).Some?
    ensures
      var t := Step(s, line, index).value;
      t.irq == (if line.Hex? then s.irq
                else !s.irq && line.device.None? && !line.hid && line.irqNoFlags && Given(s.current)) &&
      t.current == (if line.Text? && !s.irq && line.device.Some? then line.device else s.current) &&
      t.last == ((line.Text? && s.irq) || (KeepsRow(line) && s.last)) &&
      (t.irq || t.last ==> Given(t.current))
  { }

  ghost predicate Agrees(lines: seq<Line>, n: nat, s: State)
    requires n <= |lines|
  {
    s.irq == Announced(lines, n) && s.current == DeviceAt(lines, n) && s.last == InRow(lines, n) &&
    (s.irq || s.last ==> Given(s.current))
  }

  lemma {:induction false} FlagsAfter(lines: seq<Line>, n: nat)
    requires n <= |lines| && After(lines, n).Some?
    ensures Agrees(lines, n, After(lines, n).value)
  {
    hide Step, NextHexLine;
    if n > 0 {
      FlagsAfter(lines, n - 1);
      ReadingStep(lines, n);
      InRowStep(lines, n);
      FlagsStep(After(lines, n - 1).value, lines[n - 1], NextHexLine(lines, n - 1));
    }
  }

  lemma {:induction false} StartsOfAre(lines: seq<Line>, n: nat, name: string)
    requires n <= |lines|
    ensures forall i: nat {:trigger i in StartsOf(lines, n, name)} ::
              i in StartsOf(lines, n, name) <==> i < n && StartsRun(lines, i, name)
  {
    if n > 0 {
      StartsOfAre(lines, n - 1, name);
      var before, more := StartsOf(lines, n - 1, name), if StartsRun(lines, n - 1, name) then [n - 1] else [];
      assert StartsOf(lines, n, name) == before + more;
      forall i: nat
        ensures i in StartsOf(lines, n, name) <==> i < n && StartsRun(lines, i, name)
      {
        assert i in before + more <==> i in before || i in more;
      }
    }
  }

  /** The state after `n` lines holds the runs that the lines tell. */
  ghost predicate Holds(lines: seq<Line>, n: nat, s: State, name: string)
    requires n <= |lines|
  {
    AreRuns(lines, n, name, StartsOf(lines, n, name), RunsIn(s.devices, name)) &&
    (name in s.devices ==> s.devices[name].runs != []) &&
    (s.last && s.current == Some(name) ==> name in s.devices)
  }

  /** A line that holds no value of the device changes none of its runs. */
  lemma OtherLine(lines: seq<Line>, n: nat, name: string, runs: seq<Run>)
    requires 0 < n <= |lines| && !ValuesFor(lines, n - 1, name)
    requires AreRuns(lines, n - 1, name, StartsOf(lines, n - 1, name), runs)
    ensures AreRuns(lines, n, name, StartsOf(lines, n, name), runs)
  {
    var starts := StartsOf(lines, n - 1, name);
    assert StartsOf(lines, n, name) == starts;
    forall k: nat | k < |starts|
      ensures IsRun(lines, n, name, starts, k, runs[k])
    {
      assert IsRun(lines, n - 1, name, starts, k, runs[k]);
    }
  }

  /** A value after a break begins a run of its own. */
  lemma NewRun(lines: seq<Line>, n: nat, name: string, runs: seq<Run>)
    requires 0 < n <= |lines| && StartsRun(lines, n - 1, name)
    requires AreRuns(lines, n - 1, name, StartsOf(lines, n - 1, name), runs)
    ensures
      var run := Run(NextHexLine(lines, n - 1), [ValueTextOf(lines[n - 1])]);
      AreRuns(lines, n, name, StartsOf(lines, n, name), runs + [run])
  {
    var before, starts := StartsOf(lines, n - 1, name), StartsOf(lines, n, name);
    var run := Run(NextHexLine(lines, n - 1), [ValueTextOf(lines[n - 1])]);
    assert starts == before + [n - 1];
    assert ValuesOf(lines, n - 1, n, name) == [ValueTextOf(lines[n - 1])];
    forall k: nat | k < |starts|
      ensures IsRun(lines, n, name, starts, k, (runs + [run])[k])
    {
      if k < |before| { assert IsRun(lines, n - 1, name, before, k, runs[k]); }
    }
  }

  /** A value in a row with the one before belongs to the same run. */
  lemma LongerRun(lines: seq<Line>, n: nat, name: string, runs: seq<Run>)
    requires 0 < n <= |lines| && ValuesFor(lines, n - 1, name) && InRow(lines, n - 1)
    requires runs != [] && AreRuns(lines, n - 1, name, StartsOf(lines, n - 1, name), runs)
    ensures AreRuns(lines, n, name, StartsOf(lines, n, name), ExtendLast(runs, ValueTextOf(lines[n - 1])))
  {
    hide NextHexLine, HoldsValues, DeviceAt, InRow;
    var starts, longer := StartsOf(lines, n - 1, name), ExtendLast(runs, ValueTextOf(lines[n - 1]));
    assert StartsOf(lines, n, name) == starts;
    forall k: nat | k < |starts|
      ensures IsRun(lines, n, name, starts, k, longer[k])
    {
      assert IsRun(lines, n - 1, name, starts, k, runs[k]);
    }
  }

  /** One line of the pass, for one device: its runs are left alone, begun, continued or extended. */
  lemma RunsStep(s: State, line: Line, index: int, name: string)
    requires Step(s, line, index).Some? && (name in s.devices ==> s.devices[name].runs != [])
    requires s.irq || s.last ==> Given(s.current)
    requires s.last && s.current == Some(name) ==> name in s.devices
    ensures
      var t := Step(s, line, index).value;
      var runs, more := RunsIn(s.devices, name), RunsIn(t.devices, name);
      (more == if !(line.Text? && s.irq && s.current == Some(name)) then runs
               else if s.last then ExtendLast(runs, ValueTextOf(line))
               else runs + [Run(index, [ValueTextOf(line)])]) &&
      (name in t.devices ==> t.devices[name].runs != []) &&
      (t.last && t.current == Some(name) ==> name in t.devices)
  {
    if line.Text? && s.irq {
      var t := Step(s, line, index).value;
      assert t.devices == AddValue(s, ValueTextOf(line), index);
      assert s.current.Some?;
    }
  }

  lemma HoldsStep(lines: seq<Line>, n: nat, s: State, t: State, name: string)
    requires 0 < n <= |lines| && Agrees(lines, n - 1, s) && Holds(lines, n - 1, s, name)
    requires Step(s, lines[n - 1], NextHexLine(lines, n - 1)) == Some(t)
    ensures Holds(lines, n, t, name)
  {
    hide Step, NextHexLine, AreRuns, StartsOf;
    var runs := RunsIn(s.devices, name);
    RunsStep(s, lines[n - 1], NextHexLine(lines, n - 1), name);
    if !ValuesFor(lines, n - 1, name) {
      OtherLine(lines, n, name, runs);
    } else if s.last {
      LongerRun(lines, n, name, runs);
    } else {
      NewRun(lines, n, name, runs);
    }
  }

  lemma HoldsStart(lines: seq<Line>, name: string)
    ensures Holds(lines, 0, START, name)
  { }

  lemma {:induction false} RunsAfter(lines: seq<Line>, n: nat, name: string)
    requires n <= |lines| && After(lines, n).Some?
    ensures Holds(lines, n, After(lines, n).value, name)
  {
    hide Holds, Agrees, Step, NextHexLine;
    if n == 0 {
      HoldsStart(lines, name);
    } else {
      RunsAfter(lines, n - 1, name);
      FlagsAfter(lines, n - 1);
      HoldsStep(lines, n, After(lines, n - 1).value, After(lines, n).value, name);
    }
  }

  // ------------------------------------------------------------------ nothing is lost and nothing is mixed up

  function AllValues(runs: seq<Run>): seq<string> {
    if runs == [] then [] else AllValues(runs[..|runs| - 1]) + runs[|runs| - 1].values
  }

  lemma AllValuesMore(runs: seq<Run>, r: Run)
    ensures AllValues(runs + [r]) == AllValues(runs) + r.values
  {
    assert (runs + [r])[..|runs|] == runs;
  }

  lemma AllValuesExtended(runs: seq<Run>, value: string)
    requires runs != []
    ensures AllValues(ExtendLast(runs, value)) == AllValues(runs) + [value]
  {
    var last := runs[|runs| - 1];
    AllValuesMore(runs[..|runs| - 1], last.(values := last.values + [value]));
  }

  /** What is stored for `name` is all of its values, and a device without values is not stored. */
  ghost predicate Keeps(lines: seq<Line>, n: nat, s: State, name: string)
    requires n <= |lines|
  {
    AllValues(RunsIn(s.devices, name)) == ValuesOf(lines, 0, n, name) &&
    (name in s.devices <==> ValuesOf(lines, 0, n, name) != [])
  }

  lemma KeepsStep(lines: seq<Line>, n: nat, s: State, t: State, name: string)
    requires 0 < n <= |lines| && Agrees(lines, n - 1, s) && Holds(lines, n - 1, s, name)
    requires Keeps(lines, n - 1, s, name) && Step(s, lines[n - 1], NextHexLine(lines, n - 1)) == Some(t)
    ensures Keeps(lines, n, t, name)
  {
    hide Step, NextHexLine, AreRuns, StartsOf, InRow;
    var line, runs := lines[n - 1], RunsIn(s.devices, name);
    RunsStep(s, line, NextHexLine(lines, n - 1), name);
    AllValuesMore(runs, Run(NextHexLine(lines, n - 1), [ValueTextOf(line)]));
    if runs != [] { AllValuesExtended(runs, ValueTextOf(line)); }
    if !ValuesFor(lines, n - 1, name) { assert RunsIn(t.devices, name) == runs; }
  }

  lemma KeepsStart(lines: seq<Line>, name: string)
    ensures Keeps(lines, 0, START, name)
  { }

  lemma {:induction false} ValuesAfter(lines: seq<Line>, n: nat, name: string)
    requires n <= |lines| && After(lines, n).Some?
    ensures Keeps(lines, n, After(lines, n).value, name)
  {
    hide Keeps, Holds, Agrees, Step, NextHexLine;
    if n == 0 {
      KeepsStart(lines, name);
    } else {
      ValuesAfter(lines, n - 1, name);
      RunsAfter(lines, n - 1, name);
      FlagsAfter(lines, n - 1);
      KeepsStep(lines, n, After(lines, n - 1).value, After(lines, n).value, name);
    }
  }

  lemma {:induction false} ValuesOfAre(lines: seq<Line>, n: nat, name: string, v: string)
    requires n <= |lines|
    ensures v in ValuesOf(lines, 0, n, name) <==>
              exists i: nat :: i < n && ValuesFor(lines, i, name) && ValueTextOf(lines[i]) == v
  {
    if n > 0 {
      ValuesOfAre(lines, n - 1, name, v);
      var own := if ValuesFor(lines, n - 1, name) then [ValueTextOf(lines[n - 1])] else [];
      assert v in ValuesOf(lines, 0, n, name) <==> v in ValuesOf(lines, 0, n - 1, name) || v in own;
    }
  }

  /** The runs of every device, put together, are its values in order. */
  lemma StoredRunsAreValueLines(lines: seq<Line>, name: string)
    requires Listed(lines).Some?
    ensures AllValues(RunsIn(Listed(lines).value, name)) == ValuesOf(lines, 0, |lines|, name)
  {
    ValuesAfter(lines, |lines|, name);
  }

  /**
   * A device is stored exactly when it has a value line. Each of its stored runs begins on a value line that is not in
   * a row with another, carries the hex index of that line and holds the values up to the next such line.
   */
  lemma StoredRuns(lines: seq<Line>, name: string)
    requires Listed(lines).Some?
    ensures
      var devices := Listed(lines).value;
      (name in devices <==> exists i: nat :: i < |lines| && ValuesFor(lines, i, name)) &&
      AreRuns(lines, |lines|, name, StartsOf(lines, |lines|, name), RunsIn(devices, name))
  {
    RunsAfter(lines, |lines|, name);
    ValuesAfter(lines, |lines|, name);
    var values := ValuesOf(lines, 0, |lines|, name);
    if values != [] { ValuesOfAre(lines, |lines|, name, values[0]); }
    if i: nat :| i < |lines| && ValuesFor(lines, i, name) {
      ValuesOfAre(lines, |lines|, name, ValueTextOf(lines[i]));
    }
  }

  /** The indices stored for a device are the hex lines found from the lines that begin its runs. */
  lemma IndexStoredIff(lines: seq<Line>, name: string, x: int)
    requires Listed(lines).Some?
    ensures (exists k: nat :: k < |RunsIn(Listed(lines).value, name)| &&
                              RunsIn(Listed(lines).value, name)[k].index == x) <==>
              exists i: nat :: i < |lines| && StartsRun(lines, i, name) && NextHexLine(lines, i) == x
  {
    StoredRuns(lines, name);
    StartsOfAre(lines, |lines|, name);
    var starts, runs := StartsOf(lines, |lines|, name), RunsIn(Listed(lines).value, name);
    if k: nat :| k < |runs| && runs[k].index == x {
      assert IsRun(lines, |lines|, name, starts, k, runs[k]);
      assert starts[k] in starts;
    }
    if i: nat :| i < |lines| && StartsRun(lines, i, name) && NextHexLine(lines, i) == x {
      assert i in starts;
      var k: nat :| k < |starts| && starts[k] == i;
      assert IsRun(lines, |lines|, name, starts, k, runs[k]);
    }
  }

  // ------------------------------------------------------------------ when the pass raises

  ghost predicate LacksBraces(lines: seq<Line>, i: nat)
    requires i < |lines|
  {
    HoldsValues(lines, i) && lines[i].values.None?
  }

  lemma StepRaisesIff(s: State, line: Line, index: int)
    ensures Step(s, line, index).None? <==> line.Text? && s.irq && line.values.None?
  { }

  lemma {:induction false} RaisesBy(lines: seq<Line>, n: nat)
    requires n <= |lines|
    ensures After(lines, n).None? <==> exists i: nat :: i < n && LacksBraces(lines, i)
  {
    hide Step, NextHexLine;
    if n > 0 {
      RaisesBy(lines, n - 1);
      match After(lines, n - 1)
      case None =>
      case Some(s) =>
        FlagsAfter(lines, n - 1);
        StepRaisesIff(s, lines[n - 1], NextHexLine(lines, n - 1));
        assert s.irq == Announced(lines, n - 1);
        assert After(lines, n).None? <==> LacksBraces(lines, n - 1);
    }
  }

  /** The pass raises exactly when a line read as values has no brace. */
  lemma RaisesIff(lines: seq<Line>)
    ensures Listed(lines).None? <==> exists i: nat :: i < |lines| && LacksBraces(lines, i)
  {
    RaisesBy(lines, |lines|);
  }

  // ------------------------------------------------------------------ what is stored can be read back

  ghost predicate HexFollows(lines: seq<Line>, i: nat) {
    exists h: nat :: i < h < |lines| && lines[h].Hex?
  }

  /** From a text line, the hex found is on the first hex line after it. */
  lemma NextHexLineIs(lines: seq<Line>, i: nat)
    requires i < |lines| && lines[i].Text?
    ensures NextHexLine(lines, i) >= 0 <==> HexFollows(lines, i)
    ensures NextHexLine(lines, i) < 0 ==> NextHexLine(lines, i) == -1
    ensures
      var h := NextHexLine(lines, i);
      h >= 0 ==> i < h < |lines| && lines[h].Hex? && forall k :: i <= k < h ==> lines[k].Text?
  {
    var l := Listing(lines);
    assert l[i].Text?;
    var b := HexListing.GapEnd(l, i);
    HexListing.GapEndIs(l, i);
    assert HexListing.RunEnd(l, i) == i;
    assert HexListing.NextHex(l, i) == HexListing.HexStartingAt(l, b);
    forall k | i <= k < b
      ensures lines[k].Text?
    {
      assert l[k].Text?;
    }
    if b < |l| {
      assert l[b].Hex?;
      assert NextHexLine(lines, i) == b;
    }
  }

  ghost predicate IndicesFound(runs: seq<Run>) { forall k: nat :: k < |runs| ==> runs[k].index >= 0 }

  ghost predicate ValuesClean(runs: seq<Run>) { forall k: nat, v :: k < |runs| && v in runs[k].values ==> Clean(v) }

  lemma ReadableIff(runs: seq<Run>)
    requires forall k :: 0 <= k < |runs| ==> runs[k].values != []
    ensures Readable(runs) <==> IndicesFound(runs) && ValuesClean(runs)
  { }

  lemma {:induction false} AllClean(runs: seq<Run>)
    ensures ValuesClean(runs) <==> forall v :: v in AllValues(runs) ==> Clean(v)
  {
    if runs != [] {
      var front, last := runs[..|runs| - 1], runs[|runs| - 1];
      AllClean(front);
      assert AllValues(runs) == AllValues(front) + last.values;
      assert forall k: nat :: k < |front| ==> front[k] == runs[k];
    }
  }

  ghost predicate HexForRuns(lines: seq<Line>, name: string) {
    forall i: nat :: i < |lines| && StartsRun(lines, i, name) ==> HexFollows(lines, i)
  }

  ghost predicate CleanValues(lines: seq<Line>, name: string) {
    forall i: nat :: i < |lines| && ValuesFor(lines, i, name) ==> Clean(ValueTextOf(lines[i]))
  }

  lemma IndicesFoundIff(lines: seq<Line>, name: string)
    requires Listed(lines).Some?
    ensures IndicesFound(RunsIn(Listed(lines).value, name)) <==> HexForRuns(lines, name)
  {
    var runs := RunsIn(Listed(lines).value, name);
    forall i: nat | i < |lines| && StartsRun(lines, i, name)
      ensures exists k: nat :: k < |runs| && runs[k].index == NextHexLine(lines, i)
      ensures NextHexLine(lines, i) >= 0 <==> HexFollows(lines, i)
    {
      IndexStoredIff(lines, name, NextHexLine(lines, i));
      NextHexLineIs(lines, i);
    }
    forall k: nat | k < |runs|
      ensures exists i: nat :: i < |lines| && StartsRun(lines, i, name) && NextHexLine(lines, i) == runs[k].index
    {
      IndexStoredIff(lines, name, runs[k].index);
    }
  }

  lemma ValuesCleanIff(lines: seq<Line>, name: string)
    requires Listed(lines).Some?
    ensures ValuesClean(RunsIn(Listed(lines).value, name)) <==> CleanValues(lines, name)
  {
    AllClean(RunsIn(Listed(lines).value, name));
    StoredRunsAreValueLines(lines, name);
    forall v
      ensures v in ValuesOf(lines, 0, |lines|, name) <==>
                exists i: nat :: i < |lines| && ValuesFor(lines, i, name) && ValueTextOf(lines[i]) == v
    {
      ValuesOfAre(lines, |lines|, name, v);
    }
  }

  /**
   * For every device of every listing: decoding its stored string gives back its runs exactly when a hex line follows
   * every line that begins one, and no value text holds one of the separators of the format.
   */
  lemma StoredIrqsDecode(lines: seq<Line>, name: string, toInt: string -> Option<int>)
    requires ReadsDecimals(toInt) && Listed(lines).Some? && name in Listed(lines).value
    ensures
      var runs := Listed(lines).value[name].runs;
      Decode(Encode(runs), toInt) == Some(runs) <==> HexForRuns(lines, name) && CleanValues(lines, name)
  {
    var runs := Listed(lines).value[name].runs;
    FilledAfter(lines, |lines|);
    forall k | 0 <= k < |runs|
      ensures runs[k].values != []
    {
      assert runs[k] in runs;
    }
    RoundTripIff(runs, toInt);
    ReadableIff(runs);
    IndicesFoundIff(lines, name);
    ValuesCleanIff(lines, name);
  }

  predicate CleanLines(lines: seq<Line>) {
    forall i :: 0 <= i < |lines| && HoldsValues(lines, i) ==> Clean(ValueTextOf(lines[i]))
  }

  /** Where the value lines hold numbers and commas only, the hex alone decides. */
  lemma CleanListingsDecode(lines: seq<Line>, name: string, toInt: string -> Option<int>)
    requires CleanLines(lines) && ReadsDecimals(toInt)
    requires Listed(lines).Some? && name in Listed(lines).value
    ensures
      var runs := Listed(lines).value[name].runs;
      Decode(Encode(runs), toInt) == Some(runs) <==> HexForRuns(lines, name)
  {
    StoredIrqsDecode(lines, name, toInt);
  }

  /** With hex after its last value line, a listing of numbers and commas can be read back for every device. */
  lemma HexAtEndDecodes(lines: seq<Line>, h: nat, name: string, toInt: string -> Option<int>)
    requires CleanLines(lines) && ReadsDecimals(toInt)
    requires Listed(lines).Some? && name in Listed(lines).value
    requires h < |lines| && lines[h].Hex? && forall i: nat :: h < i < |lines| ==> !HoldsValues(lines, i)
    ensures
      var runs := Listed(lines).value[name].runs;
      Decode(Encode(runs), toInt) == Some(runs)
  {
    CleanListingsDecode(lines, name, toInt);
    forall i: nat | i < |lines| && StartsRun(lines, i, name)
      ensures HexFollows(lines, i)
    {
      assert i < h;
    }
  }

  const LOST := [
    Text(None, Some("RTC"), false, None, false, false),
    Hex(['5', 'B']),
    Text(None, None, false, None, true, false),
    Text(Some("8"), None, false, None, false, false)]

  /** A listing that ends on its value line: the index is stored as -1 and the string is not read back. */
  lemma LostHexFails(toInt: string -> Option<int>)
    requires ReadsDecimals(toInt)
    ensures Listed(LOST) == Some(map["RTC" := Device([Run(-1, ["8"])], None)])
    ensures Decode(Encode([Run(-1, ["8"])]), toInt) == None
  {
    NextHexLineIs(LOST, 3);
    assert After(LOST, 1) == Some(State(map[], Some("RTC"), None, false, false));
    assert After(LOST, 2) == After(LOST, 1);
    assert After(LOST, 3) == Some(State(map[], Some("RTC"), None, true, false));
    assert After(LOST, 4).Some?;
    MissingIndexFails([Run(-1, ["8"])], 0, toInt);
  }
}
