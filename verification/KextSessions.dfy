/** Sessions: the selection loop and the menu, and what whole runs of them keep. */
module KextSessions {
  import opened KextCatalog
  import opened KextSelection

  function RequiredSet(c: Catalog): set<nat> {
    set i: nat | i < |c| && c[i].required
  }

  // ------------------------------------------------------------------ what the loops compute

  /** `Raised` is the state left behind when a selected name is not in the catalogue. */
  datatype Selection = Endless | Raised(checked: set<nat>) | Finished(checked: set<nat>)

  function SelectAll(c: Catalog, q: Query, s: set<nat>, names: seq<string>, fuel: nat): Selection
    decreases |names|
  {
    if names == [] then Finished(s)
    else
      match IndexByName(c, names[0])
      case None => Raised(s)
      case Some(i) =>
        match Check(c, q, s, i, fuel)
        case OutOfFuel => Endless
        case Done(r) => SelectAll(c, q, r, names[1..], fuel)
  }

  /** One entry of the menu; entries outside the list are ignored. */
  function Toggle(c: Catalog, q: Query, s: set<nat>, index: int, fuel: nat): Outcome {
    if !(0 <= index < |c|) then Done(s)
    else if index in s && !c[index].required then Done(Uncheck(c, s, index))
    else Check(c, q, s, index, fuel)
  }

  function ToggleAll(c: Catalog, q: Query, s: set<nat>, indices: seq<int>, fuel: nat): Outcome
    decreases |indices|
  {
    if indices == [] then Done(s)
    else
      match Toggle(c, q, s, indices[0], fuel)
      case OutOfFuel => OutOfFuel
      case Done(r) => ToggleAll(c, q, r, indices[1..], fuel)
  }

  /** What a user can cause: a fresh selection for a hardware report, or a line of menu entries. */
  datatype Event =
    | Select(names: seq<string>, selectQuery: Query)
    | Menu(indices: seq<int>, menuQuery: Query)

  /** The state after an event. A selection that raises leaves its partial state behind. */
  function Handle(c: Catalog, s: set<nat>, e: Event, fuel: nat): Outcome {
    match e
    case Select(names, q) =>
      (match SelectAll(c, q, RequiredSet(c), names, fuel)
       case Endless => OutOfFuel
       case Raised(r) => Done(r)
       case Finished(r) => Done(r))
    case Menu(indices, q) => ToggleAll(c, q, s, indices, fuel)
  }

  function Run(c: Catalog, s: set<nat>, events: seq<Event>, fuel: nat): Outcome
    decreases |events|
  {
    if events == [] then Done(s)
    else
      match Handle(c, s, events[0], fuel)
      case OutOfFuel => OutOfFuel
      case Done(r) => Run(c, r, events[1..], fuel)
  }

  // ------------------------------------------------------------------ one checked kext per group

  lemma {:induction false} SelectAllKeepsOnePerGroup(c: Catalog, q: Query, s: set<nat>, names: seq<string>, fuel: nat)
    requires OnePerGroup(c, s)
    requires !SelectAll(c, q, s, names, fuel).Endless?
    ensures OnePerGroup(c, SelectAll(c, q, s, names, fuel).checked)
    decreases |names|
  {
    if names != [] && IndexByName(c, names[0]).Some? {
      var i := IndexByName(c, names[0]).value;
      CheckKeepsOnePerGroup(c, q, s, i, fuel);
      SelectAllKeepsOnePerGroup(c, q, Check(c, q, s, i, fuel).checked, names[1..], fuel);
    }
  }

  lemma {:induction false} ToggleAllKeepsOnePerGroup(c: Catalog, q: Query, s: set<nat>, indices: seq<int>, fuel: nat)
    requires OnePerGroup(c, s)
    requires ToggleAll(c, q, s, indices, fuel).Done?
    ensures OnePerGroup(c, ToggleAll(c, q, s, indices, fuel).checked)
    decreases |indices|
  {
    if indices != [] {
      var i := indices[0];
      if 0 <= i < |c| && !(i in s && !c[i].required) { CheckKeepsOnePerGroup(c, q, s, i, fuel); }
      ToggleAllKeepsOnePerGroup(c, q, Toggle(c, q, s, i, fuel).checked, indices[1..], fuel);
    }
  }

  /**
   * Safety over whole runs: after any sequence of selections and menu lines whose calls end, each conflict group
   * has at most one checked kext. The requirement graph is arbitrary; the required-only set must have the property,
   * because every selection starts from it.
   */
  lemma {:induction false} RunKeepsOnePerGroup(c: Catalog, s: set<nat>, events: seq<Event>, fuel: nat)
    requires OnePerGroup(c, RequiredSet(c)) && OnePerGroup(c, s)
    requires Run(c, s, events, fuel).Done?
    ensures OnePerGroup(c, Run(c, s, events, fuel).checked)
    decreases |events|
  {
    if events != [] {
      var e := events[0];
      match e {
        case Select(names, q) => SelectAllKeepsOnePerGroup(c, q, RequiredSet(c), names, fuel);
        case Menu(indices, q) => ToggleAllKeepsOnePerGroup(c, q, s, indices, fuel);
      }
      RunKeepsOnePerGroup(c, Handle(c, s, e, fuel).checked, events[1..], fuel);
    }
  }

  /** Every reachable state has the property iff the start has it: the empty run reaches the start. */
  lemma ReachableOnePerGroupIff(c: Catalog)
    ensures OnePerGroup(c, RequiredSet(c)) <==>
      forall events, fuel {:trigger Run(c, RequiredSet(c), events, fuel)} ::
        Run(c, RequiredSet(c), events, fuel).Done? ==> OnePerGroup(c, Run(c, RequiredSet(c), events, fuel).checked)
  {
    if OnePerGroup(c, RequiredSet(c)) {
      forall events, fuel: nat | Run(c, RequiredSet(c), events, fuel).Done?
        ensures OnePerGroup(c, Run(c, RequiredSet(c), events, fuel).checked)
      {
        RunKeepsOnePerGroup(c, RequiredSet(c), events, fuel);
      }
    } else {
      assert Run(c, RequiredSet(c), [], 0) == Done(RequiredSet(c));
    }
  }

  // ------------------------------------------------------------------ required kexts stay checked

  /** No required kext can be un-marked by another kext of its group. */
  ghost predicate RequiredUnrivalled(c: Catalog) {
    forall i: nat, j: nat {:trigger Rivals(c, i, j)} :: i < |c| && j < |c| && c[j].required ==> !Rivals(c, i, j)
  }

  lemma {:induction false} CheckKeepsRequired(c: Catalog, q: Query, s: set<nat>, i: nat, fuel: nat)
    requires i < |c| && RequiredUnrivalled(c) && RequiredSet(c) <= s
    requires Check(c, q, s, i, fuel).Done?
    ensures RequiredSet(c) <= Check(c, q, s, i, fuel).checked
    decreases fuel, 0
  {
    if i !in s && Eligible(c, q, i) {
      CheckAllKeepsRequired(c, q, s + {i}, c[i].requirements, fuel - 1);
    }
  }

  lemma {:induction false} CheckAllKeepsRequired(c: Catalog, q: Query, s: set<nat>, names: seq<string>, fuel: nat)
    requires RequiredUnrivalled(c) && RequiredSet(c) <= s
    requires CheckAll(c, q, s, names, fuel).Done?
    ensures RequiredSet(c) <= CheckAll(c, q, s, names, fuel).checked
    decreases fuel, 1, |names|
  {
    if names != [] {
      match Requirement(c, names[0])
      case None => CheckAllKeepsRequired(c, q, s, names[1..], fuel);
      case Some(j) =>
        CheckKeepsRequired(c, q, s, j, fuel);
        CheckAllKeepsRequired(c, q, Check(c, q, s, j, fuel).checked, names[1..], fuel);
    }
  }

  lemma {:induction false} SelectAllKeepsRequired(c: Catalog, q: Query, s: set<nat>, names: seq<string>, fuel: nat)
    requires RequiredUnrivalled(c) && RequiredSet(c) <= s
    requires !SelectAll(c, q, s, names, fuel).Endless?
    ensures RequiredSet(c) <= SelectAll(c, q, s, names, fuel).checked
    decreases |names|
  {
    if names != [] && IndexByName(c, names[0]).Some? {
      var i := IndexByName(c, names[0]).value;
      CheckKeepsRequired(c, q, s, i, fuel);
      SelectAllKeepsRequired(c, q, Check(c, q, s, i, fuel).checked, names[1..], fuel);
    }
  }

  lemma {:induction false} ToggleAllKeepsRequired(c: Catalog, q: Query, s: set<nat>, indices: seq<int>, fuel: nat)
    requires RequiredUnrivalled(c) && RequiredSet(c) <= s
    requires ToggleAll(c, q, s, indices, fuel).Done?
    ensures RequiredSet(c) <= ToggleAll(c, q, s, indices, fuel).checked
    decreases |indices|
  {
    if indices != [] {
      var i := indices[0];
      if 0 <= i < |c| && !(i in s && !c[i].required) { CheckKeepsRequired(c, q, s, i, fuel); }
      ToggleAllKeepsRequired(c, q, Toggle(c, q, s, i, fuel).checked, indices[1..], fuel);
    }
  }

  /** In a catalogue whose required kexts have no rivals, they stay checked through every run. */
  lemma {:induction false} RunKeepsRequired(c: Catalog, s: set<nat>, events: seq<Event>, fuel: nat)
    requires RequiredUnrivalled(c) && RequiredSet(c) <= s
    requires Run(c, s, events, fuel).Done?
    ensures RequiredSet(c) <= Run(c, s, events, fuel).checked
    decreases |events|
  {
    if events != [] {
      var e := events[0];
      match e {
        case Select(names, q) => SelectAllKeepsRequired(c, q, RequiredSet(c), names, fuel);
        case Menu(indices, q) => ToggleAllKeepsRequired(c, q, s, indices, fuel);
      }
      RunKeepsRequired(c, Handle(c, s, e, fuel).checked, events[1..], fuel);
    }
  }
}
