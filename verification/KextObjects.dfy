/** The kext objects with their check marks, and the methods that set and clear them. */
module KextObjects {
  import opened KextCatalog
  import opened KextSelection
  import opened KextSessions
  import opened KextChoices

  lemma SelectionEnds(c: Catalog, q: Query, names: seq<string>, fuel: nat)
    requires !SelectAll(c, q, RequiredSet(c), names, fuel).Endless?
    ensures forall n: nat {:trigger KnownUpTo(c, names, n)} ::
      KnownUpTo(c, names, n) && ConflictFree(c, q, names, n) ==>
      (SelectAll(c, q, RequiredSet(c), names, fuel).Finished? <==> n == |names|) &&
      IsChoice(c, q, RequiredSet(c), names, n, SelectAll(c, q, RequiredSet(c), names, fuel).checked)
  {
    forall n: nat | KnownUpTo(c, names, n) && ConflictFree(c, q, names, n)
      ensures (SelectAll(c, q, RequiredSet(c), names, fuel).Finished? <==> n == |names|)
      ensures IsChoice(c, q, RequiredSet(c), names, n, SelectAll(c, q, RequiredSet(c), names, fuel).checked)
    {
      EndedSelectionIsClosure(c, q, RequiredSet(c), names, n, fuel);
    }
  }

  class Kext {
    const info: KextInfo
    var checked: bool

    constructor (info: KextInfo)
      ensures this.info == info && checked == info.required
    {
      this.info := info;
      checked := info.required;
    }
  }

  class KextMaestro {
    const kexts: seq<Kext>

    constructor (kexts: seq<Kext>)
      ensures this.kexts == kexts
    {
      this.kexts := kexts;
    }

    /** The shared list holds each kext object once. */
    ghost predicate Valid() {
      forall i, j :: 0 <= i < j < |kexts| ==> kexts[i] != kexts[j]
    }

    function Infos(): (c: Catalog)
      ensures |c| == |kexts| && forall i :: 0 <= i < |c| ==> c[i] == kexts[i].info
    {
      seq(|kexts|, i requires 0 <= i < |kexts| => kexts[i].info)
    }

    ghost function Checked(): set<nat>
      reads kexts
    {
      set i: nat | i < |kexts| && kexts[i].checked
    }

    /** `check_kext`, for every call that ends: `fuel` bounds how deep its calls nest. */
    method CheckKext(index: nat, q: Query, ghost fuel: nat)
      requires Valid() && index < |kexts|
      requires Check(Infos(), q, Checked(), index, fuel).Done?
      modifies kexts
      ensures Check(Infos(), q, old(Checked()), index, fuel) == Done(Checked())
      decreases fuel
    {
      hide Eligible, Requirement;
      var kext, c := kexts[index], Infos();
      if kext.checked || !Eligible(c, q, index) {
        return;
      }
      kext.checked := true;
      assert Checked() == old(Checked()) + {index};
      ghost var start := Checked();
      var names := kext.info.requirements;
      for k := 0 to |names|
        invariant CheckAll(c, q, Checked(), names[k..], fuel - 1).Done?
        invariant CheckAll(c, q, Checked(), names[k..], fuel - 1) == CheckAll(c, q, start, names, fuel - 1)
      {
        assert names[k..][1..] == names[k + 1..];
        var requirement := Requirement(c, names[k]);
        if requirement.Some? {
          CheckKext(requirement.value, q, fuel - 1);
        }
      }
      ghost var closed := Checked();
      if kext.info.group.Some? && kext.info.group.value != "" {
        for j := 0 to |kexts|
          invariant forall k: nat :: k < |kexts| ==>
                      (kexts[k].checked <==> k in closed && !(k < j && Rivals(c, index, k)))
        {
          var other := kexts[j];
          if other.info.group == kext.info.group && other.info.name != kext.info.name {
            other.checked := false;
          }
        }
      }
      assert Checked() == closed - RivalsOf(c, index);
    }

    /** `uncheck_kext`. */
    method UncheckKext(index: nat)
      requires Valid() && index < |kexts|
      modifies kexts
      ensures Checked() == Uncheck(Infos(), old(Checked()), index)
      ensures forall j: nat :: j < |kexts| ==>
        (kexts[j].checked <==>
           && old(kexts[j].checked) && j != index
           && (kexts[j].info.name in kexts[index].info.requirements ==> kexts[j].info.required))
    {
      var kext, c := kexts[index], Infos();
      kext.checked := false;
      ghost var start := Checked();
      for j := 0 to |kexts|
        invariant forall k: nat :: k < |kexts| ==>
                    (kexts[k].checked <==>
                       k in start && !(k < j && c[k].name in kext.info.requirements && !c[k].required))
      {
        var other := kexts[j];
        if other.info.name in kext.info.requirements && !other.info.required {
          other.checked := false;
        }
      }
    }

    /** The reset and the selection loop of `select_required_kexts`, for an arbitrary list of names. */
    method SelectRequired(names: seq<string>, q: Query, ghost fuel: nat) returns (found: bool)
      requires Valid()
      requires !SelectAll(Infos(), q, RequiredSet(Infos()), names, fuel).Endless?
      modifies kexts
      ensures SelectAll(Infos(), q, RequiredSet(Infos()), names, fuel)
              == if found then Finished(Checked()) else Raised(Checked())
      ensures forall n: nat {:trigger KnownUpTo(Infos(), names, n)} ::
        KnownUpTo(Infos(), names, n) && ConflictFree(Infos(), q, names, n) ==>
        (found <==> n == |names|) && IsChoice(Infos(), q, RequiredSet(Infos()), names, n, Checked())
    {
      SelectionEnds(Infos(), q, names, fuel);
      var c := Infos();
      for i := 0 to |kexts|
        invariant forall k :: 0 <= k < i ==> kexts[k].checked == c[k].required
      {
        kexts[i].checked := kexts[i].info.required;
      }
      assert Checked() == RequiredSet(c);
      for k := 0 to |names|
        invariant !SelectAll(c, q, Checked(), names[k..], fuel).Endless?
        invariant SelectAll(c, q, Checked(), names[k..], fuel) == SelectAll(c, q, RequiredSet(c), names, fuel)
      {
        assert names[k..][1..] == names[k + 1..];
        var index := IndexByName(c, names[k]);
        if index.None? {
          return false;
        }
        CheckKext(index.value, q, fuel);
      }
      found := true;
    }

    /** The loop over the entries of one menu line. */
    method ApplyMenu(indices: seq<int>, q: Query, ghost fuel: nat)
      requires Valid()
      requires ToggleAll(Infos(), q, Checked(), indices, fuel).Done?
      modifies kexts
      ensures ToggleAll(Infos(), q, old(Checked()), indices, fuel) == Done(Checked())
      ensures exists states :: MenuSteps(Infos(), q, indices, states) && states[0] == old(Checked()) &&
                               states[|indices|] == Checked()
    {
      ghost var states := MenuLineIsSteps(Infos(), q, Checked(), indices, fuel);
      var c := Infos();
      for k := 0 to |indices|
        invariant ToggleAll(c, q, Checked(), indices[k..], fuel).Done?
        invariant ToggleAll(c, q, Checked(), indices[k..], fuel) == ToggleAll(c, q, old(Checked()), indices, fuel)
      {
        assert indices[k..][1..] == indices[k + 1..];
        var index := indices[k];
        if 0 <= index < |kexts| {
          var kext := kexts[index];
          if kext.checked && !kext.info.required {
            UncheckKext(index);
          } else {
            CheckKext(index, q, fuel);
          }
        }
      }
    }
  }
}
