/** `list_irqs`: the IRQ descriptors of every device, collected in one pass over the listing. */
module IrqListing {
  import opened Options
  import opened IrqFormat
  import opened Text
  import ByteSearch
  import HexListing
  import HexWalk

  /**
   * What the pass asks of a line. `values` is the text between the first `{` and the next `}` without spaces, absent
   * when there is no `{`; `device` the parenthesised name of a `Device (` line; `hidText` the first quoted text of a
   * `_HID, ` line; `filler` says that only brackets, spaces and a comment stand on the line.
   */
  datatype Line =
    | Hex(digits: seq<ByteSearch.Nibble>)
    | Text(values: Option<string>, device: Option<string>, hid: bool, hidText: Option<string>,
           irqNoFlags: bool, filler: bool)

  // ------------------------------------------------------------------ the hex that follows a line

  /** What the walk over hex blocks sees of a line. */
  function Shown(line: Line): HexListing.Line {
    match line
    case Hex(digits) => HexListing.Line.Hex(digits)
    case Text(_, _, _, _, _, _) => HexListing.Line.Text(0, 0, None)
  }

  function Listing(lines: seq<Line>): (l: seq<HexListing.Line>)
    ensures |l| == |lines| && forall k :: 0 <= k < |lines| ==> l[k] == Shown(lines[k])
  {
    seq(|lines|, k requires 0 <= k < |lines| => Shown(lines[k]))
  }

  function FirstLine(f: HexListing.Found): int { if f.Found? then f.first else -1 }

  /** The line that `find_next_hex` gives for line `i`; -1 if it finds no hex. */
  function NextHexLine(lines: seq<Line>, i: nat): int { FirstLine(HexListing.NextHex(Listing(lines), i)) }

  // ------------------------------------------------------------------ the pass, line by line

  datatype Device = Device(runs: seq<Run>, hid: Option<string>)

  datatype State = State(devices: map<string, Device>, current: Option<string>, hid: Option<string>,
                         irq: bool, last: bool)

  /** Absent and empty names are both false in the source's tests. */
  predicate Given(name: Option<string>) { name.Some? && name.value != "" }

  function SaveHid(s: State): map<string, Device> {
    if Given(s.current) && s.current.value in s.devices && Given(s.hid)
    then s.devices[s.current.value := s.devices[s.current.value].(hid := s.hid)]
    else s.devices
  }

  function Stored(value: string): string { if value == "" then "#" else value }

  function AddValue(s: State, value: string, index: int): map<string, Device> {
    if s.current.None? then s.devices
    else
      var name := s.current.value;
      if name !in s.devices then s.devices[name := Device([Run(index, [value])], None)]
      else
        var d := s.devices[name];
        s.devices[name := d.(runs := if s.last && d.runs != [] then ExtendLast(d.runs, value)
                                     else d.runs + [Run(index, [value])])]
  }

  /** One line; `None` where the source raises, on a line without braces after `IRQNoFlags`. */
  function Step(s: State, line: Line, index: int): Option<State> {
    if line.Hex? then Some(s)
    else if s.irq then
      (match line.values
       case None => None
       case Some(v) => Some(s.(devices := AddValue(s, Stored(v), index), irq := false, last := true)))
    else if line.device.Some? then
      Some(State(SaveHid(s), line.device, None, false, false))
    else if line.hid && Given(s.current) then Some(if line.hidText.Some? then s.(hid := line.hidText) else s)
    else if line.irqNoFlags && Given(s.current) then Some(s.(irq := true))
    else if !line.filler then Some(s.(last := false))
    else Some(s)
  }

  const START := State(map[], None, None, false, false)

  /** The state after the first `n` lines. */
  function After(lines: seq<Line>, n: nat): Option<State>
    requires n <= |lines|
  {
    if n == 0 then Some(START)
    else
      match After(lines, n - 1)
      case None => None
      case Some(s) => Step(s, lines[n - 1], NextHexLine(lines, n - 1))
  }

  function Listed(lines: seq<Line>): Option<map<string, Device>> {
    match After(lines, |lines|)
    case None => None
    case Some(s) => Some(SaveHid(s))
  }

  // ------------------------------------------------------------------ the pass as the source runs it

  /** What the source stores for a device. */
  datatype Entry = Entry(irq: string, hid: Option<string>)

  /** The stored strings are the encoded runs. */
  predicate Encodes(entries: map<string, Entry>, devices: map<string, Device>) {
    entries.Keys == devices.Keys &&
    forall name :: name in entries ==>
      entries[name].hid == devices[name].hid && entries[name].irq == Encode(devices[name].runs)
  }

  /** Every stored device has a run, and every run a value. */
  predicate Filled(devices: map<string, Device>) {
    forall name :: name in devices ==>
      devices[name].runs != [] && forall r :: r in devices[name].runs ==> r.values != []
  }

  method SaveCurrentHid(devices: map<string, Entry>, current: Option<string>, hid: Option<string>, ghost s: State)
    returns (saved: map<string, Entry>)
    requires Encodes(devices, s.devices) && s.current == current && s.hid == hid
    ensures Encodes(saved, SaveHid(s)) && (Filled(s.devices) ==> Filled(SaveHid(s)))
  {
    saved := devices;
    if Given(current) && current.value in devices && Given(hid) {
      saved := devices[current.value := devices[current.value].(hid := hid)];
    }
  }

  lemma EncodeRunAppended(text: string, index: int, num: string)
    ensures text + "-" + EncodeRun(Run(index, [num])) == text + "-" + Printed(index) + "|" + num
  {
    assert Join([num], ':') == num;
    assert text + "-" + (Printed(index) + "|" + num) == text + "-" + Printed(index) + "|" + num;
  }

  /** Only a value that starts a run asks for the hex after its line. */
  method AppendIrq(irq: string, last: bool, num: string, lines: seq<Line>, k: nat, ghost runs: seq<Run>)
    returns (more: string)
    requires irq == Encode(runs) && runs != [] && runs[|runs| - 1].values != []
    ensures more == Encode(if last then ExtendLast(runs, num) else runs + [Run(NextHexLine(lines, k), [num])])
  {
    if last {
      EncodeExtended(runs, num);
      more := irq + ":" + num;
    } else {
      var found := HexWalk.FindNextHex(Listing(lines), k);
      var index := FirstLine(found);
      EncodeNewRun(runs, Run(index, [num]));
      EncodeRunAppended(irq, index, num);
      more := irq + "-" + Printed(index) + "|" + num;
    }
  }

  lemma FilledMore(s: State, value: string, index: int)
    requires Filled(s.devices)
    ensures Filled(AddValue(s, value, index))
  {
    if s.current.Some? && s.current.value in s.devices {
      var runs := s.devices[s.current.value].runs;
      if s.last {
        var last := runs[|runs| - 1];
        assert last.(values := last.values + [value]).values != [];
      }
    }
  }

  method AppendValue(devices: map<string, Entry>, name: string, last: bool, num: string, lines: seq<Line>, k: nat,
                     ghost s: State)
    returns (more: map<string, Entry>)
    requires Encodes(devices, s.devices) && Filled(s.devices) && s.current == Some(name) && s.last == last
    ensures Encodes(more, AddValue(s, num, NextHexLine(lines, k))) && Filled(AddValue(s, num, NextHexLine(lines, k)))
  {
    FilledMore(s, num, NextHexLine(lines, k));
    if name in devices {
      var entry := devices[name];
      ghost var runs := s.devices[name].runs;
      assert runs[|runs| - 1] in runs;
      var irq := AppendIrq(entry.irq, last, num, lines, k, runs);
      more := devices[name := entry.(irq := irq)];
    } else {
      var found := HexWalk.FindNextHex(Listing(lines), k);
      var index := FirstLine(found);
      EncodeOneRun(Run(index, [num]));
      EncodeRunAppended("", index, num);
      more := devices[name := Entry(Printed(index) + "|" + num, None)];
    }
  }

  lemma FilledStep(s: State, line: Line, index: int)
    requires Filled(s.devices) && Step(s, line, index).Some?
    ensures Filled(Step(s, line, index).value.devices)
  {
    if line.Text? && s.irq { FilledMore(s, Stored(line.values.value), index); }
  }

  lemma {:induction false} FilledAfter(lines: seq<Line>, n: nat)
    requires n <= |lines| && After(lines, n).Some?
    ensures Filled(After(lines, n).value.devices)
  {
    hide Step, NextHexLine;
    if n > 0 {
      FilledAfter(lines, n - 1);
      FilledStep(After(lines, n - 1).value, lines[n - 1], NextHexLine(lines, n - 1));
    }
  }

  /** The loop's variables are those of the pass. */
  ghost predicate Mirrors(s: State, devices: map<string, Entry>, current: Option<string>, hid: Option<string>,
                          irq: bool, last: bool) {
    && s.current == current && s.hid == hid && s.irq == irq && s.last == last
    && Encodes(devices, s.devices) && Filled(s.devices) && (irq ==> Given(current))
  }

  /** The body of the loop over the lines. */
  method ReadLine(lines: seq<Line>, k: nat, devices: map<string, Entry>, current: Option<string>, hid: Option<string>,
                  irq: bool, last: bool, ghost s: State)
    returns (raised: bool, devices': map<string, Entry>, current': Option<string>, hid': Option<string>, irq': bool,
             last': bool)
    requires k < |lines| && Mirrors(s, devices, current, hid, irq, last)
    ensures raised <==> Step(s, lines[k], NextHexLine(lines, k)).None?
    ensures !raised ==> Mirrors(Step(s, lines[k], NextHexLine(lines, k)).value, devices', current', hid', irq', last')
  {
    hide NextHexLine, AddValue, SaveHid;
    raised, devices', current', hid', irq', last' := false, devices, current, hid, irq, last;
    var line := lines[k];
    if line.Hex? { return; }
    if irq {
      if line.values.None? {
        raised := true;
        return;
      }
      devices' := AppendValue(devices, current.value, last, Stored(line.values.value), lines, k, s);
      irq', last' := false, true;
    } else if line.device.Some? {
      devices' := SaveCurrentHid(devices, current, hid, s);
      last', hid', current' := false, None, line.device;
    } else if line.hid && Given(current) {
      if line.hidText.Some? { hid' := line.hidText; }
    } else if line.irqNoFlags && Given(current) {
      irq' := true;
    } else if !line.filler {
      last' := false;
    }
  }

  method ListIrqs(lines: seq<Line>) returns (result: Option<map<string, Entry>>)
    ensures result.Some? <==> Listed(lines).Some?
    ensures result.Some? ==> Encodes(result.value, Listed(lines).value)
  {
    hide Step, NextHexLine;
    var devices: map<string, Entry> := map[];
    var current: Option<string>, hid: Option<string> := None, None;
    var irq, last, raised := false, false, false;
    ghost var s := START;
    for k := 0 to |lines|
      invariant After(lines, k) == Some(s) && Mirrors(s, devices, current, hid, irq, last)
    {
      ghost var next := Step(s, lines[k], NextHexLine(lines, k));
      assert After(lines, k + 1) == next;
      raised, devices, current, hid, irq, last := ReadLine(lines, k, devices, current, hid, irq, last, s);
      if raised {
        StopsForGood(lines, k + 1, |lines|);
        return None;
      }
      s := next.value;
    }
    devices := SaveCurrentHid(devices, current, hid, s);
    result := Some(devices);
  }

  lemma {:induction false} StopsForGood(lines: seq<Line>, k: nat, n: nat)
    requires k <= n <= |lines| && After(lines, k).None?
    ensures After(lines, n).None?
  {
    hide Step, NextHexLine;
    if k < n { StopsForGood(lines, k, n - 1); }
  }
}
