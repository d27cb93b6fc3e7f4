/** The kext catalogue: the attributes of each kext that never change, and the index of names. */
module KextCatalog {
  import opened Options
  import opened DarwinVersions

  datatype KextInfo = KextInfo(
    name: string,
    required: bool,
    range: Range,
    requirements: seq<string>,
    group: Option<string>)

  type Catalog = seq<KextInfo>

  function Names(c: Catalog): (names: seq<string>)
    ensures |names| == |c|
  {
    seq(|c|, i requires 0 <= i < |c| => c[i].name)
  }

  /** The entry of the name dictionary. */
  function IndexByName(c: Catalog, name: string): (r: Option<nat>)
    ensures r.Some? ==> r.value < |c|
  {
    LastIndex(Names(c), name)
  }

  /** A requirement that is followed: an index of 0 is false in the source, so it is dropped. */
  function Requirement(c: Catalog, name: string): (r: Option<nat>)
    ensures r.Some? ==> 0 < r.value < |c|
  {
    match IndexByName(c, name)
    case Some(k) => if k == 0 then None else Some(k)
    case None => None
  }

  predicate InGroup(c: Catalog, i: nat)
    requires i < |c|
  {
    c[i].group.Some? && c[i].group.value != ""
  }

  /** Kexts of one conflict group that carry different names. */
  predicate Rivals(c: Catalog, i: nat, j: nat)
    requires i < |c| && j < |c|
  {
    InGroup(c, i) && c[j].group == c[i].group && c[j].name != c[i].name
  }

  function RivalsOf(c: Catalog, i: nat): set<nat>
    requires i < |c|
  {
    set j: nat | j < |c| && Rivals(c, i, j)
  }

  // ------------------------------------------------------------------ what the names say

  /** Kext `k` is the last one called `name`. */
  predicate LastCalled(c: Catalog, name: string, k: nat) {
    k < |c| && c[k].name == name && forall later :: k < later < |c| ==> c[later].name != name
  }

  lemma IndexIsLastCalled(c: Catalog, name: string, k: nat)
    ensures IndexByName(c, name) == Some(k) <==> LastCalled(c, name, k)
  {
    LastIndexIsLast(Names(c), name);
    forall i | 0 <= i < |c|
      ensures Names(c)[i] == c[i].name
    { }
    if LastCalled(c, name, k) { assert Names(c)[k] in Names(c); }
  }

  lemma UnknownIffNotCalled(c: Catalog, name: string)
    ensures IndexByName(c, name) == None <==> forall k :: 0 <= k < |c| ==> c[k].name != name
  {
    LastIndexIsLast(Names(c), name);
    forall k | 0 <= k < |c|
      ensures Names(c)[k] == c[k].name
    { }
  }

  /** A followed requirement is the last kext of that name, unless that is the first of the catalogue. */
  lemma RequirementIsLastCalled(c: Catalog, name: string, k: nat)
    ensures Requirement(c, name) == Some(k) <==> LastCalled(c, name, k) && k > 0
  {
    IndexIsLastCalled(c, name, k);
  }
}
