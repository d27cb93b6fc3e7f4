/** Which hardware identifier `list_irqs` keeps for a device whose name may open several blocks of the listing. */
module IrqHardwareIds {
  import opened Options
  import opened IrqListing
  import opened IrqRuns

  /** A `_HID` line with quoted text, inside a device. */
  predicate ShowsHid(lines: seq<Line>, i: nat)
    requires i < |lines|
  {
    lines[i].Text? && lines[i].device.None? && lines[i].hid && lines[i].hidText.Some? &&
    DeviceAt(lines, i) !in {None, Some("")} && !HoldsValues(lines, i)
  }

  /** The identifier shown last before line `i` in the block of its device. */
  function HidAt(lines: seq<Line>, i: nat): Option<string>
    requires i <= |lines|
  {
    if i == 0 || OpensDevice(lines, i - 1) then None
    else if ShowsHid(lines, i - 1) then lines[i - 1].hidText
    else HidAt(lines, i - 1)
  }

  /** A block of `name` ends before line `e`, has shown an identifier, and the device has values by then. */
  predicate SavesHid(lines: seq<Line>, e: nat, name: string)
    requires e <= |lines|
  {
    (e == |lines| || OpensDevice(lines, e)) && DeviceAt(lines, e) == Some(name) && name != "" &&
    HidAt(lines, e) !in {None, Some("")} && ValuesOf(lines, 0, e, name) != []
  }

  /** The last block that ends before line `n` and saves an identifier ends before line `e`. */
  ghost predicate LastEnd(lines: seq<Line>, n: nat, name: string, e: nat)
    requires n <= |lines| + 1
  {
    e < n && SavesHid(lines, e, name) && forall later: nat :: e < later < n ==> !SavesHid(lines, later, name)
  }

  /** `hid` is the identifier of that block; absent if there is none. */
  ghost predicate IsLastHid(lines: seq<Line>, n: nat, name: string, hid: Option<string>)
    requires n <= |lines| + 1
  {
    if hid.None? then forall e: nat :: e < n ==> !SavesHid(lines, e, name)
    else exists e: nat :: LastEnd(lines, n, name, e) && hid == HidAt(lines, e)
  }

  function HidIn(devices: map<string, Device>, name: string): Option<string> {
    if name in devices then devices[name].hid else None
  }

  lemma HidStep(s: State, line: Line, index: int, name: string)
    requires Step(s, line, index).Some?
    ensures
      var t := Step(s, line, index).value;
      if line.Text? && !s.irq && line.device.Some? then
        t.hid == None && HidIn(t.devices, name) == HidIn(SaveHid(s), name)
      else
        HidIn(t.devices, name) == HidIn(s.devices, name) &&
        t.hid == if line.Text? && !s.irq && line.hid && line.hidText.Some? && Given(s.current) then line.hidText
                 else s.hid
  { }

  lemma {:induction false} HidAfter(lines: seq<Line>, n: nat)
    requires n <= |lines| && After(lines, n).Some?
    ensures After(lines, n).value.hid == HidAt(lines, n)
  {
    hide Step, NextHexLine;
    if n > 0 {
      HidAfter(lines, n - 1);
      FlagsAfter(lines, n - 1);
      ReadingStep(lines, n);
      HidStep(After(lines, n - 1).value, lines[n - 1], NextHexLine(lines, n - 1), "");
    }
  }

  /** One more possible end of a block. */
  lemma NextEnd(lines: seq<Line>, n: nat, name: string, before: Option<string>)
    requires n <= |lines| && IsLastHid(lines, n, name, before)
    ensures IsLastHid(lines, n + 1, name, if SavesHid(lines, n, name) then HidAt(lines, n) else before)
  {
    assert SavesHid(lines, n, name) ==> HidAt(lines, n).Some?;
    hide SavesHid, HidAt;
    if SavesHid(lines, n, name) {
      assert LastEnd(lines, n + 1, name, n);
    } else if before.Some? {
      var e: nat :| LastEnd(lines, n, name, e) && before == HidAt(lines, e);
      assert LastEnd(lines, n + 1, name, e);
    }
  }

  /** What is saved at the end of a block. */
  lemma SavedHid(lines: seq<Line>, n: nat, s: State, name: string)
    requires n <= |lines| && s.current == DeviceAt(lines, n) && s.hid == HidAt(lines, n) && Keeps(lines, n, s, name)
    requires n == |lines| || OpensDevice(lines, n)
    ensures HidIn(SaveHid(s), name) == if SavesHid(lines, n, name) then HidAt(lines, n) else HidIn(s.devices, name)
  { }

  lemma HidsStep(lines: seq<Line>, n: nat, s: State, name: string, saved: Option<string>)
    requires n < |lines| && s.current == DeviceAt(lines, n) && s.hid == HidAt(lines, n) && Keeps(lines, n, s, name)
    requires saved == HidIn(if OpensDevice(lines, n) then SaveHid(s) else s.devices, name)
    ensures saved == if SavesHid(lines, n, name) then HidAt(lines, n) else HidIn(s.devices, name)
  {
    if OpensDevice(lines, n) { SavedHid(lines, n, s, name); }
  }

  lemma {:induction false} HidsAfter(lines: seq<Line>, n: nat, name: string)
    requires n <= |lines| && After(lines, n).Some?
    ensures IsLastHid(lines, n, name, HidIn(After(lines, n).value.devices, name))
  {
    hide Step, NextHexLine, Keeps, SavesHid;
    if n > 0 {
      HidsAfter(lines, n - 1, name);
      HidAfter(lines, n - 1);
      FlagsAfter(lines, n - 1);
      ValuesAfter(lines, n - 1, name);
      var s, t := After(lines, n - 1).value, After(lines, n).value;
      HidStep(s, lines[n - 1], NextHexLine(lines, n - 1), name);
      HidsStep(lines, n - 1, s, name, HidIn(t.devices, name));
      NextEnd(lines, n - 1, name, HidIn(s.devices, name));
    }
  }

  /** Every stored device has the identifier of the last of its blocks that saves one, or none. */
  lemma StoredHid(lines: seq<Line>, name: string)
    requires Listed(lines).Some?
    ensures IsLastHid(lines, |lines| + 1, name, HidIn(Listed(lines).value, name))
  {
    var s := After(lines, |lines|).value;
    HidsAfter(lines, |lines|, name);
    HidAfter(lines, |lines|);
    FlagsAfter(lines, |lines|);
    ValuesAfter(lines, |lines|, name);
    NextEnd(lines, |lines|, name, HidIn(s.devices, name));
    SavedHid(lines, |lines|, s, name);
  }
}
