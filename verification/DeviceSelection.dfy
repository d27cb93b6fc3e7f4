/** Keeping the chosen devices of a category and disabling the others. */
module DeviceSelection {
  /** The properties of a device that the moves read: whether its ID is a known wireless card. */
  datatype Props = Props(deviceId: string, wireless: bool)

  type Devices = map<string, Props>

  function Category(deviceType: string): string {
    if deviceType == "WiFi" then "Network" else deviceType
  }

  function DisabledKey(category: string, name: string): string { category + ": " + name }

  /** Deleting the last device of a category deletes the category. */
  function Without(all: map<string, Devices>, category: string, name: string): map<string, Devices> {
    if category !in all || name !in all[category] then all
    else
      var rest := all[category] - {name};
      if rest == map[] then all - {category} else all[category := rest]
  }

  predicate Has(all: map<string, Devices>, category: string, name: string) {
    category in all && name in all[category]
  }

  /** Only the one device goes; a category goes with its last device, and an empty one stays. */
  lemma WithoutIs(all: map<string, Devices>, category: string, name: string, other: string, device: string)
    ensures
      var now := Without(all, category, name);
      && (Has(now, other, device) <==> Has(all, other, device) && (other, device) != (category, name))
      && (Has(now, other, device) ==> now[other][device] == all[other][device])
    ensures other in Without(all, category, name) <==>
      && other in all
      && (other == category && name in all[other] ==> exists rest :: rest in all[other] && rest != name)
  {
    if category in all && name in all[category] {
      var rest := all[category] - {name};
      assert rest == map[] <==> forall each :: each in all[category] ==> each == name by {
        assert forall each :: each in rest <==> each in all[category] && each != name;
      }
    }
  }

  /** Network devices that are no known wireless card are not touched. */
  predicate Moves(deviceType: string, props: Props) { deviceType != "WiFi" || props.wireless }

  predicate Dropped(names: seq<string>, n: nat, chosen: seq<string>, name: string)
    requires n <= |names|
  {
    name in names[..n] && name !in chosen
  }

  /** `now` is `before` without the devices that are not chosen among the first `n`. */
  ghost predicate Keeps(before: Devices, now: Devices, names: seq<string>, n: nat, chosen: seq<string>)
    requires n <= |names|
  {
    && (forall name :: name in now <==> name in before && !Dropped(names, n, chosen, name))
    && (forall name :: name in now ==> name in before && now[name] == before[name])
  }

  /** `now` is `before` with an entry for every dropped device. */
  ghost predicate Disables(category: string, before: Devices, now: Devices, names: seq<string>, n: nat,
                           chosen: seq<string>,
                     devices: Devices)
    requires n <= |names| && forall name :: name in names ==> name in devices
  {
    && (forall name :: Dropped(names, n, chosen, name) ==>
          DisabledKey(category, name) in now && now[DisabledKey(category, name)] == devices[name])
    && (forall key :: key in before ==> key in now)
    && (forall key :: key in now ==>
          (key in before && now[key] == before[key])
          || exists name :: name in names[..n] && name !in chosen && key == DisabledKey(category, name))
  }

  lemma KeyInjective(category: string, a: string, b: string)
    requires DisabledKey(category, a) == DisabledKey(category, b)
    ensures a == b
  {
    var prefix := category + ": ";
    assert (prefix + a)[|prefix|..] == a && (prefix + b)[|prefix|..] == b;
  }

  /** The same categories, and the same devices in all but one of them. */
  ghost predicate SameElsewhere(before: map<string, Devices>, now: map<string, Devices>, category: string) {
    && category in before
    && now.Keys == before.Keys
    && forall other :: other in now && other != category ==> now[other] == before[other]
  }

  class HardwareCustomizer {
    var customized: map<string, Devices>
    var disabled: Devices
    var selected: map<string, Devices>

    constructor (report: map<string, Devices>)
      ensures customized == report && disabled == map[] && selected == map[]
    {
      customized, disabled, selected := report, map[], map[];
    }

    method DisableDevice(deviceType: string, name: string, props: Props)
      modifies this`customized, this`disabled
      ensures deviceType == "WiFi" && !props.wireless ==> customized == old(customized) && disabled == old(disabled)
      ensures deviceType == "WiFi" && props.wireless ==>
        customized == Without(old(customized), "Network", name)
        && disabled == old(disabled)["Network" + ": " + name := props]
      ensures deviceType != "WiFi" ==>
        customized == Without(old(customized), deviceType, name)
        && disabled == old(disabled)[deviceType + ": " + name := props]
    {
      var category := deviceType;
      if deviceType == "WiFi" {
        if !props.wireless { return; }
        category := "Network";
      }
      if category in customized && name in customized[category] {
        customized := customized[category := customized[category] - {name}];
        if customized[category] == map[] { customized := customized - {category}; }
      }
      disabled := disabled[category + ": " + name := props];
    }

    /** Every offered device that is not chosen is disabled; `names` lists the offered devices in order. */
    method KeepChosen(deviceType: string, names: seq<string>, devices: Devices, chosen: seq<string>)
      requires Category(deviceType) in customized
      requires forall name :: name in names ==> name in devices && Moves(deviceType, devices[name])
      requires chosen != [] && forall name :: name in chosen ==> name in customized[Category(deviceType)]
      modifies this`customized, this`disabled
      ensures SameElsewhere(old(customized), customized, Category(deviceType))
      ensures Keeps(old(customized)[Category(deviceType)], customized[Category(deviceType)], names, |names|, chosen)
      ensures Disables(Category(deviceType), old(disabled), disabled, names, |names|, chosen, devices)
    {
      var category := Category(deviceType);
      for n := 0 to |names|
        invariant SameElsewhere(old(customized), customized, category)
        invariant Keeps(old(customized)[category], customized[category], names, n, chosen)
        invariant Disables(category, old(disabled), disabled, names, n, chosen, devices)
      {
        ghost var kept, off := customized[category], disabled;
        assert Dropped(names, n, chosen, chosen[0]) == false && chosen[0] in chosen;
        KeepOrDisable(deviceType, names[n], devices[names[n]], chosen);
        KeepsMore(old(customized)[category], kept, customized[category], names, n, chosen);
        DisablesMore(category, old(disabled), off, disabled, names, n, chosen, devices);
      }
    }

    /** One turn of the loop over the offered devices. */
    method KeepOrDisable(deviceType: string, name: string, props: Props, chosen: seq<string>)
      requires Category(deviceType) in customized && Moves(deviceType, props)
      requires chosen != [] && chosen[0] in customized[Category(deviceType)]
      modifies this`customized, this`disabled
      ensures SameElsewhere(old(customized), customized, Category(deviceType))
      ensures customized[Category(deviceType)] ==
        if name in chosen then old(customized)[Category(deviceType)] else old(customized)[Category(deviceType)] - {name}
      ensures disabled ==
        if name in chosen then old(disabled) else old(disabled)[DisabledKey(Category(deviceType), name) := props]
    {
      if name !in chosen {
        ghost var category := Category(deviceType);
        assert chosen[0] != name by { assert chosen[0] in chosen; }
        assert chosen[0] in customized[category] - {name};
        DisableDevice(deviceType, name, props);
      }
    }

    /** The choice of the user: the chosen devices are recorded, all others of the menu disabled. */
    method ApplyChoice(deviceType: string, names: seq<string>, devices: Devices, chosen: seq<string>)
      requires Category(deviceType) in customized && devices.Keys <= customized[Category(deviceType)].Keys
      requires forall name :: name in names <==> name in devices
      requires forall name :: name in devices ==> Moves(deviceType, devices[name])
      requires chosen != [] && forall name :: name in chosen ==> name in devices
      modifies this
      ensures SameElsewhere(old(customized), customized, Category(deviceType))
      ensures Keeps(old(customized)[Category(deviceType)], customized[Category(deviceType)], names, |names|, chosen)
      ensures Disables(Category(deviceType), old(disabled), disabled, names, |names|, chosen, devices)
      ensures deviceType in selected && forall name :: name in chosen ==>
        name in selected[deviceType] && selected[deviceType][name] == devices[name]
      ensures selected.Keys == old(selected).Keys + {deviceType}
      ensures forall name :: name in selected[deviceType] && name !in chosen ==>
        deviceType in old(selected) && name in old(selected)[deviceType] &&
        selected[deviceType][name] == old(selected)[deviceType][name]
      ensures forall name :: deviceType in old(selected) && name in old(selected)[deviceType] ==>
        name in selected[deviceType]
      ensures forall other :: other in old(selected) && other != deviceType ==> selected[other] == old(selected)[other]
    {
      hide SameElsewhere, Keeps, Disables, Moves, Category;
      KeepChosen(deviceType, names, devices, chosen);
      var mine: Devices := if deviceType in selected then selected[deviceType] else map[];
      for n := 0 to |chosen|
        invariant forall k :: 0 <= k < n ==> chosen[k] in mine && mine[chosen[k]] == devices[chosen[k]]
        invariant forall name :: name in mine && name !in chosen ==>
          deviceType in selected && name in selected[deviceType] && mine[name] == selected[deviceType][name]
        invariant forall name :: deviceType in selected && name in selected[deviceType] ==> name in mine
      {
        mine := mine[chosen[n] := devices[chosen[n]]];
      }
      selected := selected[deviceType := mine];
    }
  }

  lemma DroppedMore(names: seq<string>, n: nat, chosen: seq<string>, name: string)
    requires n < |names|
    ensures Dropped(names, n + 1, chosen, name) <==>
      Dropped(names, n, chosen, name) || (name == names[n] && name !in chosen)
  {
    assert names[..n + 1] == names[..n] + [names[n]];
  }

  lemma KeepsMore(before: Devices, now: Devices, next: Devices, names: seq<string>, n: nat, chosen: seq<string>)
    requires n < |names| && Keeps(before, now, names, n, chosen)
    requires next == if names[n] in chosen then now else now - {names[n]}
    ensures Keeps(before, next, names, n + 1, chosen)
  {
    forall name
      ensures name in next <==> name in before && !Dropped(names, n + 1, chosen, name)
    {
      DroppedMore(names, n, chosen, name);
    }
  }

  lemma DisablesMore(category: string, before: Devices, now: Devices, next: Devices, names: seq<string>, n: nat,
                     chosen: seq<string>, devices: Devices)
    requires n < |names| && (forall name :: name in names ==> name in devices)
    requires Disables(category, before, now, names, n, chosen, devices)
    requires next == if names[n] in chosen then now else now[DisabledKey(category, names[n]) := devices[names[n]]]
    ensures Disables(category, before, next, names, n + 1, chosen, devices)
  {
    var last := names[n];
    forall name | Dropped(names, n + 1, chosen, name)
      ensures DisabledKey(category, name) in next && next[DisabledKey(category, name)] == devices[name]
    {
      DroppedMore(names, n, chosen, name);
      if DisabledKey(category, name) == DisabledKey(category, last) { KeyInjective(category, name, last); }
    }
    assert names[..n + 1] == names[..n] + [last];
    forall key | key in next
      ensures (key in before && next[key] == before[key])
        || exists name :: name in names[..n + 1] && name !in chosen && key == DisabledKey(category, name)
    {
      if last !in chosen && key == DisabledKey(category, last) {
        assert last in names[..n + 1];
      } else {
        assert key in now && next[key] == now[key];
      }
    }
  }

  /** After a choice every offered device is either kept or disabled, never both. */
  lemma ChoicePartitions(before: Devices, now: Devices, off: Devices, was: Devices, names: seq<string>,
                         chosen: seq<string>, devices: Devices, category: string, name: string)
    requires forall each :: each in names <==> each in devices
    requires devices.Keys <= before.Keys && name in devices
    requires Keeps(before, now, names, |names|, chosen)
    requires Disables(category, was, off, names, |names|, chosen, devices)
    requires DisabledKey(category, name) !in was
    ensures name in now <==> name in chosen
    ensures DisabledKey(category, name) in off <==> name !in chosen
    ensures DisabledKey(category, name) in off ==> off[DisabledKey(category, name)] == devices[name]
  {
    assert names[..|names|] == names;
    assert Dropped(names, |names|, chosen, name) <==> name !in chosen;
    if DisabledKey(category, name) in off && name in chosen {
      var other :| other in names[..|names|] && other !in chosen &&
        DisabledKey(category, name) == DisabledKey(category, other);
      KeyInjective(category, name, other);
    }
  }
}
