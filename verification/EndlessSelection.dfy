/** A catalogue on which `check_kext` never returns: two conflict groups keep un-marking kexts still in progress. */
module EndlessSelection {
  import opened Options
  import opened DarwinVersions
  import opened KextCatalog
  import opened KextSelection

  function Plain(name: string, requirements: seq<string>, group: string): KextInfo {
    KextInfo(name, false, Range(Version(17, 0, 0), Version(25, 99, 99)), requirements, Some(group))
  }

  /** Two conflict groups, A B D and C E F, whose members keep un-marking each other. */
  const ENDLESS: Catalog := [
    Plain("L", [], ""),
    Plain("A", ["B", "E", "C"], "G"),
    Plain("B", [], "G"),
    Plain("C", ["D", "F", "A"], "H"),
    Plain("D", [], "G"),
    Plain("E", [], "H"),
    Plain("F", [], "H")]

  lemma EndlessIndices()
    ensures Requirement(ENDLESS, "A") == Some(1) && Requirement(ENDLESS, "B") == Some(2)
    ensures Requirement(ENDLESS, "C") == Some(3) && Requirement(ENDLESS, "D") == Some(4)
    ensures Requirement(ENDLESS, "E") == Some(5) && Requirement(ENDLESS, "F") == Some(6)
  {
    forall k | 1 <= k < 7 ensures Requirement(ENDLESS, ENDLESS[k].name) == Some(k) {
      LastIndexIsLast(Names(ENDLESS), ENDLESS[k].name);
      assert Names(ENDLESS)[k] == ENDLESS[k].name;
    }
    assert ENDLESS[1].name == "A" && ENDLESS[2].name == "B" && ENDLESS[3].name == "C";
    assert ENDLESS[4].name == "D" && ENDLESS[5].name == "E" && ENDLESS[6].name == "F";
  }

  lemma EndlessRivals()
    ensures RivalsOf(ENDLESS, 2) == {1, 4} && RivalsOf(ENDLESS, 4) == {1, 2}
    ensures RivalsOf(ENDLESS, 5) == {3, 6} && RivalsOf(ENDLESS, 6) == {3, 5}
  {
    assert |ENDLESS| == 7;
  }

  /** One step along the requirement list, for a kext that requires nothing itself. */
  lemma EndlessLeaf(q: Query, s: set<nat>, i: nat, names: seq<string>, fuel: nat)
    requires q.allowUnsupported && fuel > 0
    requires i in {2, 4, 5, 6} && i !in s
    requires names != [] && Requirement(ENDLESS, names[0]) == Some(i)
    ensures CheckAll(ENDLESS, q, s, names, fuel)
            == CheckAll(ENDLESS, q, s + {i} - RivalsOf(ENDLESS, i), names[1..], fuel)
  {
    assert ENDLESS[i].requirements == [];
    assert Check(ENDLESS, q, s, i, fuel) == Done(s + {i} - RivalsOf(ENDLESS, i));
  }

  lemma {:induction false} EndlessAtA(q: Query, s: set<nat>, fuel: nat)
    requires q.allowUnsupported && (s == {} || s == {4, 6})
    ensures Check(ENDLESS, q, s, 1, fuel) == OutOfFuel
    decreases fuel
  {
    if fuel > 1 {
      EndlessIndices();
      EndlessRivals();
      var names := ENDLESS[1].requirements;
      assert names[1..] == ["E", "C"] && names[1..][1..] == ["C"];
      EndlessLeaf(q, s + {1}, 2, names, fuel - 1);
      var s1 := s + {1} + {2} - {1, 4};
      EndlessLeaf(q, s1, 5, names[1..], fuel - 1);
      assert s1 + {5} - {3, 6} == {2, 5};
      EndlessAtC(q, fuel - 1);
    } else if fuel == 1 {
      EndlessStopsAtOne(q, s);
    }
  }

  lemma EndlessStopsAtOne(q: Query, s: set<nat>)
    requires q.allowUnsupported && (s == {} || s == {4, 6})
    ensures Check(ENDLESS, q, s, 1, 1) == OutOfFuel
  {
    EndlessIndices();
    assert ENDLESS[1].requirements[0] == "B";
    assert Check(ENDLESS, q, s + {1}, 2, 0) == OutOfFuel;
    assert CheckAll(ENDLESS, q, s + {1}, ENDLESS[1].requirements, 0) == OutOfFuel;
  }

  lemma {:induction false} EndlessAtC(q: Query, fuel: nat)
    requires q.allowUnsupported
    ensures Check(ENDLESS, q, {2, 5}, 3, fuel) == OutOfFuel
    decreases fuel
  {
    EndlessIndices();
    if fuel > 1 {
      EndlessRivals();
      var names := ENDLESS[3].requirements;
      assert names[1..] == ["F", "A"] && names[1..][1..] == ["A"];
      EndlessLeaf(q, {2, 5} + {3}, 4, names, fuel - 1);
      var s1 := {2, 5} + {3} + {4} - {1, 2};
      EndlessLeaf(q, s1, 6, names[1..], fuel - 1);
      assert s1 + {6} - {3, 5} == {4, 6};
      EndlessAtA(q, {4, 6}, fuel - 1);
    } else if fuel == 1 {
      assert ENDLESS[3].requirements[0] == "D";
      assert Check(ENDLESS, q, {2, 5} + {3}, 4, 0) == OutOfFuel;
      assert CheckAll(ENDLESS, q, {2, 5} + {3}, ENDLESS[3].requirements, 0) == OutOfFuel;
    }
  }

  /** `check_kext` does not terminate on every catalogue: starting from nothing checked, this call runs forever. */
  lemma CheckMayRunForever(q: Query)
    requires q.allowUnsupported
    ensures forall fuel :: Check(ENDLESS, q, {}, 1, fuel) == OutOfFuel
  {
    forall fuel: nat ensures Check(ENDLESS, q, {}, 1, fuel) == OutOfFuel {
      EndlessAtA(q, {}, fuel);
    }
  }
}
