# Verified models of OpCore Simplify

OpCore Simplify builds an OpenCore EFI from a hardware report. This project models the parts of its Python scripts that
hold an algorithm with a specification of its own, and proves what they promise:

- **Kext selection** (`DarwinVersions`, `KextCatalog`, `KextSelection`, `SelectionBound`, `EndlessSelection`,
  `KextSessions`, `KextChoices`, `KextObjects`). `check_kext` marks a kext and what it requires, depth first over a
  graph that has cycles, while un-marking conflict-group rivals. A catalogue is a sequence of kexts, the state is the
  set of checked indices, and a run is a sequence of selections and menu steps.
- **Bundle loading** (`KextLoading`, `KextLoadingTheorems`, `KextLoader`). `load_kexts` sorts bundles by dependency,
  narrows kernel ranges along dependencies and disables repeated identifiers.
- **Unique patterns and rename patches** (`Sequences`, `ByteSearch`, `HexListing`, `HexWalk`, `UniquePad`,
  `PadSearch`, `PadTheorems`, `RenamePatch`, `PaddedRename`, `WrongRename`). `get_unique_pad` widens a byte pattern
  across the hex blocks of a disassembled table until it is counted once; the pad becomes a find-and-replace patch.
- **ACPI namespace** (`Text`, `Namespace`, `NamespacePaths`, `NamespaceWalk`). `get_paths` and `get_scope` recover
  fully qualified paths and object bodies from a bracket counter and a stack.
- **IRQ patches** (`Bits`, `IrqFormat`, `IrqListing`, `IrqRuns`, `IrqHardwareIds`, `IrqMasks`, `IrqPatches`).
  `list_irqs` stores the IRQ descriptors of each device in a string, `get_hex_from_irqs` reads it back and builds IRQ
  Descriptors of section 6.4.2.1 of the ACPI Specification 6.x with some IRQs removed.
- **EmbeddedControl scanner** (`TextScan`, `EmbeddedControl`, `EmbeddedControlText`, `EmbeddedControlScan`).
  `battery_status_patch` and its index-moving helpers.
- **GPU combinations** (`DeviceCombinations`, `GpuCombinations`, `DeviceSelection`). Which GPUs may be enabled
  together, over which kernel versions, and what a choice keeps and disables.
- **Report validation** (`ReportRules`, `ReportProblems`, `ReportOrder`, `ReportValidator`). The recursive schema
  validator, its errors and warnings, and its cleaned report.

Code that may not end is modelled by functions with a fuel argument and a result `OutOfFuel`; the theorems say for
which inputs some fuel suffices, so nothing is claimed about runs that do not end. Loops and objects that the scripts
update in place are classes and methods whose contracts equate the new state with those functions. What the functions
compute is told again without them, by reachability, by position in a text or by membership, and proved equal.

## Where the code does less than it seems

Each of these is a proved statement about a function of the code as it is, on arbitrary arguments. Where the shipped
callers only pass arguments that keep clear of it, that is said.

- `check_kext` may recurse forever on a catalogue whose conflict groups cut across requirements
  (`EndlessSelection.CheckMayRunForever`). It ends with everything demanded checked iff the demanded set has at most
  one kext of each conflict group (`KextSelection.DemandMetIff`); it ends at all iff it ends with nesting bounded by
  the number of pairs of a state and a kext (`SelectionBound.EndsIff`). The shipped catalogue,
  `Scripts/datasets/kext_data.py`, does not reach this: no closure of followed requirements in it holds two kexts of
  one group, which is the condition of `KextSelection.ConflictFreeReachSuffices`, and no required kext in it belongs
  to a group.
- `load_kexts` returns iff the bundle libraries are acyclic (`KextLoadingTheorems.LoadEndsIff`). The libraries come
  from the kexts on disk.
- `bytes.count` counts occurrences that do not overlap, and so does the replacement, from the left: a pattern counted
  once may first occur, overlapping the target, before it. Then the patch renames another object: `WrongRename` has a
  listing on which the shortest pad does so (`WrongRename.WrongObjectRenamed`). A patch hits the target iff the
  pattern does not occur earlier (`RenamePatch.RenameHitsTargetIff`). Tables come from the firmware of the user's
  machine.
- `list_irqs` writes a missing hex line as index -1, whose sign is the separator of the format: the stored string of a
  device reads back iff a hex line follows every line that begins one of its runs and no value text holds a separator
  (`IrqRuns.StoredIrqsDecode`). `IrqRuns.LostHexFails` has a listing that ends on its value line. A listing with hex
  after its last value line reads back for every device (`IrqRuns.HexAtEndDecodes`).
- An integrated AMD GPU that is listed first, or before another one, is in no offered combination
  (`GpuCombinations.OfferedIff`): index 0 counts as no index, and only the last one is remembered. The menu raises iff
  some other GPU has no compatibility range (`GpuCombinations.SortingRaisesIff`); the shipped program stores a range
  for every GPU that reaches the menu (`Scripts/compatibility_checker.py:149-154`,
  `Scripts/hardware_customizer.py:57-63`), so it does not raise there.
- `find_line_start` never looks at the first character of the text, so a line break there is missed when no other
  precedes the index (`TextScan.LineEndsPastIff`); a recognised region is never affected
  (`EmbeddedControl.RegionProgress`).
- A negative IRQ number to remove clears IRQ 0 (`IrqMasks.ConvertIsPow2`, `IrqMasks.ClearedBit`). The shipped list is
  the constant 0, 2, 8, 11 (`Scripts/acpi_guru.py:82`).

## Model

| member | source | states |
|---|---|---|
| `DarwinVersions.OrderIsByNumber` | Scripts/utils.py:148-150 | the parsed triples compare like the numbers they write in any base above the last two parts: major first, then minor, then patch |
| `DarwinVersions.RangeIsByNumber` | Scripts/kext_maestro.py:83 | a range accepts a version iff its number lies between those of the two ends, both included |
| `KextCatalog.RequirementIsLastCalled` | Scripts/kext_maestro.py:89-90 | a name stands for the last kext so called, and for none if that is the first of the catalogue |
| `KextSelection.RequiresIff` | Scripts/kext_maestro.py:88-91 | a kext requires exactly the kexts after the first that are the last ones called by a required name |
| `KextSelection.OnePerGroupIff` | Scripts/kext_maestro.py:93-96 | with distinct names, two checked kexts that share a conflict group that is not empty are one |
| `KextSelection.EligibleByNumber` | Scripts/kext_maestro.py:83 | a kext may be checked iff the target lies in its range as numbers, or all are allowed |
| `KextSelection.CheckFuelMonotone` | Scripts/kext_maestro.py:80-96 | once a call has ended, more fuel gives the same set: the fuel is no part of the result |
| `KextSelection.CheckKeepsIdleGroups` | Scripts/kext_maestro.py:80-96 | during a call only groups whose member is still on the stack can exceed one checked kext |
| `KextSelection.CheckKeepsOnePerGroup` | Scripts/kext_maestro.py:80-96 | every call that ends keeps at most one checked kext per conflict group, on any requirement graph |
| `KextSelection.SearchInTerritory` | Scripts/kext_maestro.py:83-96 | inside a set that holds all it may demand, the search ends within the number of unmarked kexts and never un-marks that set |
| `KextSelection.CheckIsWhiteClosure` | Scripts/kext_maestro.py:80-96 | white-path theorem: if the demanded set has one member per group, the call ends and checks exactly the kexts reachable through unchecked eligible ones, plus the old ones without a rival among them |
| `KextSelection.DemandMetIff` | Scripts/kext_maestro.py:80-96 | the call ends with everything demanded checked iff the demanded set has at most one member per group |
| `KextSelection.ConflictFreeReachSuffices` | Scripts/kext_maestro.py:83-96 | a conflict-free reachable set from the empty state makes the demanded set conflict free from every state |
| `EndlessSelection.CheckMayRunForever` | Scripts/kext_maestro.py:80-96 | a catalogue of seven kexts on which no fuel suffices when unsupported kexts are allowed |
| `SelectionBound.DepthIsBounded` | Scripts/kext_maestro.py:80-96 | a call that ends nests less deeply than there are pairs of a state and a kext |
| `SelectionBound.EndsIff` | Scripts/kext_maestro.py:80-96 | a call ends iff it ends within that nesting, so whether it ends is decidable from the catalogue and the state |
| `KextSessions.SelectAllKeepsOnePerGroup` | Scripts/kext_maestro.py:431-432 | the selection loop keeps one checked kext per group |
| `KextSessions.ToggleAllKeepsOnePerGroup` | Scripts/kext_maestro.py:711-717 | so does the menu step, whatever numbers the user enters |
| `KextSessions.RunKeepsOnePerGroup` | Scripts/kext_maestro.py:80-104 | so does every sequence of selections and menu steps, if the required-only set has the property |
| `KextSessions.ReachableOnePerGroupIff` | Scripts/kext_maestro.py:103-104 | every state reachable from the required-only start has at most one checked kext per group iff the start has |
| `KextSessions.RunKeepsRequired` | Scripts/kext_maestro.py:80-104 | in a catalogue whose required kexts have no rivals, they stay checked through every sequence |
| `KextChoices.SelectionIsClosure` | Scripts/kext_maestro.py:431-432 | if the kexts reachable from the names hold no rivals, the selection loop ends from any state and then a kext is checked iff it is reachable from a name through unchecked eligible kexts, or was checked and rivals none of these; every eligible named kext is checked; it raises at the first unknown name, with the choice of the names before it |
| `KextChoices.EndedSelectionIsClosure` | Scripts/kext_maestro.py:431-432 | so does the loop that ends under any fuel |
| `KextChoices.SelectionEvent` | Scripts/kext_maestro.py:103-104 | after a selection, from whatever state, the checked kexts are those asked for and the required ones that rival none of them |
| `KextChoices.ToggleIsMenuStep` | Scripts/kext_maestro.py:711-717 | a number in the list un-checks a checked kext that is not required, with the kexts it requires that are not required; otherwise, if what it demands holds no rivals, it checks what is reachable and un-checks the rivals of that; any other number changes nothing |
| `KextChoices.MenuLineIsSteps` | Scripts/kext_maestro.py:711-717 | a menu line takes one such step per number, in order, each from the state before it |
| `KextChoices.RunIsEvents` | Scripts/kext_maestro.py:80-104 | a run takes its selections and menu lines in order, each from the state before it |
| `KextObjects.KextMaestro.CheckKext` | Scripts/kext_maestro.py:80-96 | the recursive marking of shared kext objects computes `Check` |
| `KextObjects.KextMaestro.UncheckKext` | Scripts/kext_maestro.py:619-625 | un-checks the kext and the non-required kexts it requires, nothing else |
| `KextObjects.KextMaestro.SelectRequired` | Scripts/kext_maestro.py:103-104 | the reset to the required kexts followed by the selection loop of lines 431-432; when the kexts reachable from the names hold no rivals, it raises iff some name is not in the catalogue, and the checked kexts are those reachable ones, up to that name, and the required ones that rival none of them |
| `KextObjects.KextMaestro.ApplyMenu` | Scripts/kext_maestro.py:711-717 | the loop of the menu step over any list of numbers takes one menu step per number; it skips numbers outside the list |
| `KextLoading.ProviderIff` | Scripts/kext_maestro.py:557 | an identifier stands for the last bundle that has it |
| `KextLoading.OwnRangeIs` | Scripts/kext_maestro.py:568-575 | a bundle starts with the range of the last kext called like its file, or the widest range if there is none or it is the first of the catalogue |
| `KextLoading.NarrowIs` | Scripts/kext_maestro.py:581-582 | narrowing along a dependency accepts what both ranges accept; a dependency without a range is skipped, or raises, by the defaults 99.99.99 and 0.0.0 |
| `KextLoading.OverrideIs` | Scripts/kext_maestro.py:584-588 | the two name-specific overrides accept up to 19.99.99, or only the target's major version with the range's other parts; other names keep their range |
| `KextLoading.VisitSorts` | Scripts/kext_maestro.py:564-597 | on ranked libraries a visit ends, keeps the order sorted, and adds its bundle after all it depends on |
| `KextLoading.LoadSorts` | Scripts/kext_maestro.py:557-600 | loading ends with every bundle that is not unloaded listed once, sorted, with its narrowed range |
| `KextLoading.SortedOrderIsTopological` | Scripts/kext_maestro.py:557-600 | in that order a bundle stands after every bundle it depends on |
| `KextLoadingTheorems.RangeIsIntersection` | Scripts/kext_maestro.py:568-582 | a version is accepted by a loaded bundle iff it is accepted by the own ranges of the bundle and of all its transitive dependencies, where no name-specific override applies |
| `KextLoadingTheorems.OneEnabledPerIdentifier` | Scripts/kext_maestro.py:592-595 | exactly one bundle per identifier is enabled, the first in the output |
| `KextLoadingTheorems.DependencyIsEnabledEarlier` | Scripts/kext_maestro.py:557-600 | every dependency whose chosen bundle is not unloaded has an enabled provider strictly earlier |
| `KextLoadingTheorems.KnotBlocksLoad` | Scripts/kext_maestro.py:564-600 | a load that returns has met no set of bundles that depend on each other in a circle |
| `KextLoadingTheorems.RankExists` | Scripts/kext_maestro.py:577-590 | without such a set the bundles can be ranked below their dependents |
| `KextLoadingTheorems.KnotIsCyclic` | Scripts/kext_maestro.py:577-590 | every such set contains a dependency cycle |
| `KextLoadingTheorems.LoadEndsIff` | Scripts/kext_maestro.py:564-600 | loading returns iff the dependencies are acyclic |
| `KextLoader.Loader.VisitBundle` | Scripts/kext_maestro.py:564-597 | the recursive visit of mutable bundles, with its visited and seen sets, computes `Visit` and keeps the enabled flags right |
| `KextLoader.Loader.Append` | Scripts/kext_maestro.py:584-597 | the name-specific overrides, the books and the enabled flag of one bundle |
| `KextLoader.Loader.LoadAll` | Scripts/kext_maestro.py:599-600 | the loop over all bundles computes `Load` |
| `ByteSearch.LongerCountsLess` | Scripts/dsdt.py:588-589 | a pattern around another is counted no more often, without overlaps, in any table |
| `ByteSearch.OccurrenceIsCounted` | Scripts/dsdt.py:588-589 | a pattern that occurs is counted at least once |
| `ByteSearch.CountIsLargest` | Scripts/dsdt.py:588-589 | the count of a pattern is the largest number of its occurrences that do not overlap |
| `HexWalk.GetHexStartingAt` | Scripts/dsdt.py:513-524 | the digits from a line to the end of its hex block, and the block's last line |
| `HexWalk.GetHexEndingAt` | Scripts/dsdt.py:526-537 | the digits from the start of its hex block to a line of the listing, and the block's first line; nothing and -1 for a line that is not hex |
| `HexWalk.FindNextHex` | Scripts/dsdt.py:490-508 | the next hex block after the one at a line |
| `HexWalk.FindPreviousHex` | Scripts/dsdt.py:470-488 | the hex block before the one at a line |
| `HexListing.NextHexTakes` | Scripts/dsdt.py:490-508 | the next block starts the digits that remain to the right, and none remain if there is no next block |
| `HexListing.PreviousHexTakes` | Scripts/dsdt.py:470-488 | the same to the left |
| `UniquePad.EnoughIff` | Scripts/dsdt.py:569-571 | loading stops iff the digits hold the target or reach the cap |
| `UniquePad.OccurrenceIff` | Scripts/dsdt.py:580-584 | the instance stands where that many cuts at first occurrences, which do not overlap, have been passed |
| `PadSearch.Locate` | Scripts/dsdt.py:563-578 | blocks are loaded until the target is in them or the cap is reached |
| `PadSearch.Widen` | Scripts/dsdt.py:586-610 | the widening loop returns the pad of the first unique turn, and raises iff there is none before a side runs out |
| `PadSearch.GetUniquePad` | Scripts/dsdt.py:557-610 | the whole search, with every error condition, meets its specification |
| `PadSearch.GetShortestUniquePad` | Scripts/dsdt.py:539-555 | a shortest of the three pads, the earliest direction among equals; it raises iff all three searches do |
| `UniquePad.PadIsDetermined` | Scripts/dsdt.py:586-610 | the specification of the widening loop has one result |
| `PadTheorems.PadIsUnique` | Scripts/dsdt.py:557-610 | the specification of the whole search has one result |
| `UniquePad.TableSpansFall` | Scripts/dsdt.py:586-610 | around a target inside the table, the count never rises as the pattern widens and never reaches zero |
| `UniquePad.SearchIsExact` | Scripts/dsdt.py:586-610 | so a pad is found iff the pattern of the last turn is counted once |
| `UniquePad.PadExistsIff` | Scripts/dsdt.py:586-610 | a pad is found iff widening to the edge of the listing gives a pattern counted once |
| `PadTheorems.ListingSearchIsExact` | Scripts/dsdt.py:557-610 | the same for a target located in a listing whose hex is a slice of the table |
| `RenamePatch.ReplaceOnce` | Scripts/acpi_guru.py:354-355 | replacing a pattern counted once replaces its first occurrence and nothing else |
| `RenamePatch.RenameChangesOneByte` | Scripts/acpi_guru.py:352-355 | such a rename changes exactly one byte, an underscore to an X |
| `RenamePatch.RenameHitsTargetIff` | Scripts/acpi_guru.py:352-355 | it is the target's byte iff the padded pattern does not occur earlier |
| `RenamePatch.CountedOnceIsFirst` | Scripts/dsdt.py:588-589 | a pattern that cannot overlap itself and is counted once occurs once |
| `RenamePatch.RenameWithoutOverlapHitsTarget` | Scripts/acpi_guru.py:352-355 | so its rename hits the target |
| `WrongRename.WrongObjectRenamed` | Scripts/acpi_guru.py:352-355 | a listing and its table on which the three searches for the second object give pads whose shortest renames the first object |
| `WrongRename.WrongPadIsTheResult` | Scripts/dsdt.py:539-555 | that pad is the only result allowed there |
| `PaddedRename.FoundPadRenames` | Scripts/dsdt.py:586-610 | a pad found around a name gives a patch that changes one byte, the name's own iff the pattern does not occur earlier |
| `PaddedRename.ShortestPadRenames` | Scripts/acpi_guru.py:350-355 | from listing to patched table: the shortest pad of a name located at a given line and digit changes one byte, the located one iff the pattern does not occur earlier, so always if it cannot overlap itself |
| `Namespace.StackPathResolves` | Scripts/dsdt.py:693-715 | the path computed from the stack after a push is the pushed name resolved in the path below, carets and qualified names included |
| `Namespace.PathsOfForest` | Scripts/dsdt.py:676-721 | over any shown tree the walk reports the expected entries and leaves the enclosing stack as it was |
| `Namespace.PathsRecoverNamespace` | Scripts/dsdt.py:668-722 | for every printed tree, with hex lines anywhere, the walk reports the entries of its objects that are no scope, in the order of the listing; `NamespacePaths` says what these are |
| `NamespacePaths.EntriesIff` | Scripts/dsdt.py:668-722 | an entry is reported iff some declaration of the tree, other than a scope, has its line, its kind, a path that is not empty, and the text of that path |
| `NamespacePaths.DeclarationHasEntry` | Scripts/dsdt.py:689-721 | every such declaration has its entry, and no other entry has its line |
| `NamespacePaths.OneEntryPerLine` | Scripts/dsdt.py:676-722 | entries stand in the order of their lines, at most one per line, whatever the listing |
| `NamespacePaths.PathTextIff` | Scripts/dsdt.py:719-720 | the text of a path is the one whose parts between dots are its segments, each without backslashes in front and underscores behind, with a backslash in front of the first part alone |
| `NamespacePaths.WholePathIsReported` | Scripts/dsdt.py:719-720 | the segments `_SB` and `PCI0` give `\_SB.PCI0` |
| `NamespacePaths.QualifiedIff` | Scripts/dsdt.py:701-702 | a name is qualified iff it begins with a backslash or its first segment is `_SB` or `_PR` with underscores behind |
| `NamespacePaths.ResolveUp` | Scripts/dsdt.py:708-715 | a relative name with carets in front gives the enclosing path without as many last segments, or the root, and then its own segments |
| `NamespacePaths.ResolveAbsolute` | Scripts/dsdt.py:703-707 | a qualified name gives its own segments, without a bare backslash in front |
| `Namespace.ReadIsShown` | Scripts/dsdt.py:676-679 | a listing that reads as the printed tree shows it wherever its hex lines stand |
| `Namespace.ScopeKeepsForest` | Scripts/dsdt.py:640-655 | inside an open scope a whole tree is kept and the bracket count stays |
| `Namespace.ScopeIsObject` | Scripts/dsdt.py:634-656 | from the declaration line of any braced object the scope is its printed subtree, or with hex its whole piece of the listing |
| `Namespace.ScopeOfReportedObject` | Scripts/dsdt.py:634-722 | the same from the line of every reported braced object |
| `NamespaceWalk.NamesOf` | Scripts/dsdt.py:698-704 | the innermost names up to the first qualified one |
| `NamespaceWalk.ClimbCarets` | Scripts/dsdt.py:708-715 | every caret goes up one level |
| `NamespaceWalk.PathOf` | Scripts/dsdt.py:698-715 | the segments of the object on top of the stack |
| `NamespaceWalk.PopNested` | Scripts/dsdt.py:682-688 | entries as deep as the current line are removed; depths stay strictly increasing |
| `NamespaceWalk.VisitLine` | Scripts/dsdt.py:680-721 | one text line keeps the walk's invariant and strictly increasing depths |
| `NamespaceWalk.GetPaths` | Scripts/dsdt.py:668-722 | the loop computes `Paths`, whose entries `NamespacePaths.EntriesIff` tells by the declarations |
| `NamespaceWalk.GetScope` | Scripts/dsdt.py:634-656 | the loop computes `ScopeFrom` |
| `IrqFormat.MissingIndexFails` | Scripts/acpi_guru.py:656-658 | a stored run without hex index makes the decoder raise |
| `IrqFormat.RoundTripIff` | Scripts/acpi_guru.py:656-659 | decoding stored runs gives them back iff every hex index was found and no value text holds one of the three separators |
| `IrqFormat.StoredText` | Scripts/acpi_guru.py:589-597 | the stored text of two runs and of one without hex index, character by character |
| `IrqRuns.StoredRuns` | Scripts/acpi_guru.py:581-620 | a device is stored iff it has a value line; each of its runs begins on a value line that is not in a row with an earlier one, carries the hex index found from that line and holds the values up to the next such line |
| `IrqRuns.IndexStoredIff` | Scripts/acpi_guru.py:589-597 | an index is stored for a device iff it is the hex line found from a line that begins one of its runs |
| `IrqRuns.StoredRunsAreValueLines` | Scripts/acpi_guru.py:585-599 | the runs stored for a device, put together, are its values in order: none lost, none of another device |
| `IrqRuns.NextHexLineIs` | Scripts/dsdt.py:490-508 | from a text line the walk finds the first hex line after it, and -1 iff there is none |
| `IrqRuns.RaisesIff` | Scripts/acpi_guru.py:585-587 | the pass raises iff a line read as values has no brace |
| `IrqRuns.StoredIrqsDecode` | Scripts/acpi_guru.py:572-659 | for every device of every classified listing: the stored string is decoded to its runs iff a hex line follows every line that begins one and no value text holds a separator |
| `IrqRuns.CleanListingsDecode` | Scripts/acpi_guru.py:572-659 | for listings whose value texts hold no separator, iff a hex line follows every line that begins a run |
| `IrqRuns.HexAtEndDecodes` | Scripts/acpi_guru.py:572-659 | such a listing with hex after its last value line is decoded for every device |
| `IrqRuns.LostHexFails` | Scripts/acpi_guru.py:592-597 | a listing without hex after its value line stores index -1, and decoding raises |
| `IrqHardwareIds.StoredHid` | Scripts/acpi_guru.py:600-624 | a device keeps the hardware ID of the last of its blocks that shows one and ends after a value of the device was read, or none |
| `IrqListing.ReadLine` | Scripts/acpi_guru.py:582-620 | the body of the loop takes one step of the pass on the stored strings, asking for hex only where a run begins |
| `IrqListing.ListIrqs` | Scripts/acpi_guru.py:572-624 | the loop stores the encoded runs and the hardware IDs of the pass, and raises where the pass does |
| `IrqMasks.ConvertIsPow2` | Scripts/acpi_guru.py:691-693 | the binary numeral is the power of two of the IRQ; a negative one gives IRQ 0 |
| `IrqMasks.MaskIsListedIrqs` | Scripts/acpi_guru.py:695-706 | the mask has bit k iff k is at most 15 and some item of the value between commas, other than `#`, reads as k |
| `IrqMasks.SameLineIrq` | Scripts/acpi_guru.py:695-706 | the loop computes that mask, told in the same words |
| `IrqMasks.ClearedBit` | Scripts/acpi_guru.py:667-668 | removing an IRQ clears its bit and no other |
| `IrqMasks.HexRoundTrip` | Scripts/dsdt.py:424-426 | the little-endian hex of any value below 65536 is four digits that decode to it |
| `IrqMasks.HexFromIntIs` | Scripts/dsdt.py:424-426 | a value below 65536 is written as its four hex digits, the low pair first |
| `IrqMasks.DescriptorAt` | Scripts/acpi_guru.py:674-677 | the text of every mask is `22` and its four digits, at six times its position |
| `IrqMasks.DescriptorsRoundTrip` | Scripts/acpi_guru.py:674-677 | the built bytes read back as IRQ Descriptors give the masks |
| `IrqPatches.ReplacementClears` | Scripts/acpi_guru.py:656-681 | read as IRQ Descriptors, find holds exactly the IRQs up to 15 that an item between commas reads as, replace those without the requested ones (none, if no list is given), both of equal length |
| `IrqPatches.PatchOfEveryRun` | Scripts/acpi_guru.py:656-682 | every run has its patch, in order and with its index |
| `IrqPatches.ChangedIff` | Scripts/acpi_guru.py:681 | a patch is marked changed iff some IRQ of the run is to be removed |
| `IrqPatches.RemovedIff` | Scripts/acpi_guru.py:662-672 | the list shared by the patches of a device holds exactly the requests of IRQs that some run has, each IRQ by its first request; for natural numbers, every requested IRQ that some run has |
| `IrqPatches.GetIntForLine` | Scripts/acpi_guru.py:685-689 | one mask per adjacent descriptor |
| `IrqPatches.RemoveIrqs` | Scripts/acpi_guru.py:663-672 | the loop over the requested IRQs computes the cleared masks and the effective removals |
| `IrqPatches.GetHexFromIrqs` | Scripts/acpi_guru.py:646-683 | the loop over the decoded runs builds the patches, and raises iff decoding does |
| `TextScan.FindLineStart` | Scripts/acpi_guru.py:2892-2898 | the walk back to a line break |
| `TextScan.LineEndsPastIff` | Scripts/acpi_guru.py:2892-2903 | the extracted line ends past its index iff the text does not start with the only line break up to there |
| `TextScan.LineStartIsZeroIff` | Scripts/acpi_guru.py:2892-2898 | the walk back ends at 0 iff there is no line break after the first character up to the index |
| `TextScan.ExtractLine` | Scripts/acpi_guru.py:2900-2903 | the stripped line, its start and its end |
| `TextScan.BlockIsShortest` | Scripts/acpi_guru.py:2905-2924 | the block is the shortest balanced one from the first opening brace, or empty if there is none |
| `TextScan.ExtractBlockContent` | Scripts/acpi_guru.py:2905-2924 | the counting loop finds that block |
| `EmbeddedControl.RegionProgress` | Scripts/acpi_guru.py:2948-2957 | each outer step moves forward: by one where the source catches an exception, else past the keyword |
| `EmbeddedControl.DefinitionPassesKeywordIff` | Scripts/acpi_guru.py:2959-2986 | a found definition ends past its keyword iff the text does not start with the only line break up to there |
| `EmbeddedControl.NoRegionSkipped` | Scripts/acpi_guru.py:2995-2999 | every line with the keyword and a region name is visited |
| `EmbeddedControl.VisitedIncreases` | Scripts/acpi_guru.py:2995-2999 | and visited once, in order |
| `EmbeddedControl.VisitedIsRegion` | Scripts/acpi_guru.py:2995-2999 | and nothing else is visited |
| `EmbeddedControl.AllFieldsAreVisited` | Scripts/acpi_guru.py:2995-3016 | the scan gathers the fields of the visited regions, one after the other |
| `EmbeddedControl.RegionFieldsIff` | Scripts/acpi_guru.py:3001-3014 | for a region, a field is gathered iff a definition after its line declares it and no definition from there up to that one is without fields |
| `EmbeddedControl.AllFieldsIff` | Scripts/acpi_guru.py:2995-3016 | a field is gathered by the scan iff some recognised, named region gathers it |
| `EmbeddedControlText.RegionNameIff` | Scripts/acpi_guru.py:2953 | the region's name is the text after the first parenthesis up to the next parenthesis or comma, without blanks at its ends; there is none iff the line has no parenthesis |
| `EmbeddedControlText.RegionIff` | Scripts/acpi_guru.py:2948-2957 | a region is recognised iff the line around the keyword has such a name, whatever blanks stand around the line; the search goes on after that line |
| `EmbeddedControlText.DefinitionIff` | Scripts/acpi_guru.py:2962-2969 | a definition is `Field (` and the name, and its block the shortest balanced one after that line |
| `EmbeddedControlText.DeclaredIff` | Scripts/acpi_guru.py:2988-3018 | the scan gathers exactly the fields that the text declares in these terms |
| `EmbeddedControlScan.CollectRegion` | Scripts/acpi_guru.py:3001-3014 | the inner loop ends on every text; from the start of a line it gathers exactly those fields |
| `EmbeddedControlScan.BatteryStatusPatch` | Scripts/acpi_guru.py:2988-3018 | the scan ends on every text and answers true iff the text declares a field wider than eight bits: a line with the keyword gives, between its first parenthesis and the next parenthesis or comma, a name that is not empty, and a later `Field (` of that name has the field in its block, none before it being without fields |
| `Text.StripIff` | Scripts/acpi_guru.py:2900-2903 | stripping removes blanks at both ends, all of them and nothing else |
| `DeviceCombinations.GetDeviceCombinations` | Scripts/hardware_customizer.py:92-111 | every non-empty subset exactly once, each ascending, ordered by size and then lexicographically |
| `DeviceCombinations.LexLessIff` | Scripts/hardware_customizer.py:109 | one combination stands before another iff at the first place where they differ it ends or has the smaller index |
| `DeviceCombinations.SubsetIsPicked` | Scripts/hardware_customizer.py:100-104 | every non-empty subset is the choice of some mask |
| `DeviceCombinations.PickedInjective` | Scripts/hardware_customizer.py:100-104 | different masks make different choices |
| `GpuCombinations.Classify` | Scripts/hardware_customizer.py:128-148 | every GPU is in the group of its vendor and form; the last integrated AMD GPU is remembered |
| `GpuCombinations.AllowedIsCompatible` | Scripts/hardware_customizer.py:150-159 | no offered combination mixes an integrated AMD GPU with a Navi or Intel GPU, or Navi 22 with another Navi or Intel GPU; OCLP GPUs stand alone |
| `GpuCombinations.OfferedIff` | Scripts/hardware_customizer.py:153-159 | which GPUs occur in some offered combination |
| `GpuCombinations.AllowedIff` | Scripts/hardware_customizer.py:150-226 | a combination is allowed iff it is not empty, ascending and free of forbidden kinds, all its GPUs can be offered, and a GPU that needs OCLP stands alone |
| `GpuCombinations.RangeIsIntersection` | Scripts/hardware_customizer.py:212-220 | a version lies in the range of a combination iff it lies in the range of every member that has one |
| `GpuCombinations.SortingRaisesIff` | Scripts/hardware_customizer.py:231 | sorting the menu raises iff some offerable GPU has no range |
| `GpuCombinations.Examine` | Scripts/hardware_customizer.py:207-223 | the loop over a combination computes its range and whether it needs OCLP |
| `GpuCombinations.OfferCombinations` | Scripts/hardware_customizer.py:199-229 | the offers are exactly these combinations, told by the GPUs alone, each once and with its range |
| `DeviceSelection.HardwareCustomizer.DisableDevice` | Scripts/hardware_customizer.py:295-311 | moves one device to the disabled map, deletes an emptied category, leaves unknown network devices alone |
| `DeviceSelection.WithoutIs` | Scripts/hardware_customizer.py:305-309 | only that device goes, every other keeps its properties, and its category goes exactly with its last device |
| `DeviceSelection.HardwareCustomizer.KeepChosen` | Scripts/hardware_customizer.py:253-255 | all offered devices but the chosen ones are disabled, and no other category changes |
| `DeviceSelection.HardwareCustomizer.ApplyChoice` | Scripts/hardware_customizer.py:161-167 | the chosen devices are also recorded as selected |
| `DeviceSelection.ChoicePartitions` | Scripts/hardware_customizer.py:253-257 | after a choice every offered device is kept or disabled, never both |
| `ReportRules.NoErrorIffConforms` | Scripts/report_validator.py:242-294 | with typed rules no error is found iff the data conforms, and conforming data is cleaned by erasing the keys that no rule applies to |
| `ReportRules.RevalidationIsClean` | Scripts/report_validator.py:242-294 | validating a cleaned report again finds no error, gives no warning and changes nothing |
| `ReportProblems.WarningsIff` | Scripts/report_validator.py:266-277 | an unknown key is warned about iff the rules lead at its path to a dictionary of the right type with that key, whose schema is not empty and has no rule for it |
| `ReportProblems.ErrorsIff` | Scripts/report_validator.py:242-294 | a problem is among the errors iff the rules lead at its path to data of the wrong type, text that does not match, or a dictionary that keeps no entry for a required key |
| `ReportProblems.CleanedIs` | Scripts/report_validator.py:260-294 | the cleaned data: dictionaries keep the ruled entries whose value survives, lists the items that survive, in order, each cleaned in turn; anything that does not fit is dropped |
| `ReportOrder.WarningsInOrder` | Scripts/report_validator.py:266-277 | warnings come in the order in which the unknown entries stand in the data |
| `ReportOrder.ErrorsInOrder` | Scripts/report_validator.py:242-294 | errors come in the order of the data, missing keys after the errors inside their dictionary and in the order of the schema |
| `ReportOrder.ProblemsOnce` | Scripts/report_validator.py:242-294 | with distinct keys in every dictionary and schema, every error and every warning is listed once |
| `ReportValidator.ReportValidator.ValidateNode` | Scripts/report_validator.py:242-294 | the recursion appends the errors and warnings of `Validate` and returns its cleaned data |
| `ReportValidator.ReportValidator.ReportMissing` | Scripts/report_validator.py:279-281 | the loop over the required keys |
| `ReportValidator.ReportValidator.ValidateReport` | Scripts/report_validator.py:219-240 | the errors and warnings are exactly the problems found in these terms, the cleaned report is as described, and under a typed schema a report is accepted iff it conforms |

## Left out

- Console prompts, printing, files, downloads and processes are input and output only; a user's answer is an arbitrary argument.
- KextObjects.KextMaestro.SelectRequired: `verify_kext_compatibility` runs before the loops and itself raises on an unknown name or on a number past the list, leaving the reset state or the state before the menu step; the model starts at the loops, and its safety theorems cover those states too.
- The hardware-dependent choice of kext names in `select_required_kexts` is an arbitrary list of names; the answer of `verify_kext_compatibility` and the unload list are arbitrary too.
- Bundles refer to kexts and to each other by position; the mutable bundle dictionaries are objects of class `Bundle` with the fields that loading reads or writes.
- The final formatting of `kernel_add`, where range ends equal to the newest or oldest version become empty strings.
- The override for AirportItlwm replaces the first two characters of the version text; it is modelled as replacing a two-digit major version.
- A library entry that lacks a range when a dependent reads it, possible only on an unloaded bundle, raises or is skipped as in the source: the model calls this outcome `MissingKey`.
- KextSelection.CheckIsWhiteClosure: the state after a call that ends although its demanded set holds rivals is the value of the function `Check` only, without a description by reachability.
- KextChoices.SelectionIsClosure: a selection or menu entry whose reachable kexts hold rivals is described by the invariants of `KextSessions` and by the function `Check` only.
- EmbeddedControl.RegionFieldsIff: an index in the middle of a line, from which the scan never starts a region.
- KextLoadingTheorems.RangeIsIntersection: closures with a name-specific override are excluded, because the override sets the range regardless of dependencies.
- Classification of listing lines (regular expressions, comments, colons) is given: a line is hex digits, or text with its numbers of braces and its declaration.
- PadSearch.GetUniquePad: listings in which every hex line holds whole bytes, as the disassembler writes them.
- PadTheorems.ListingSearchIsExact: the target stands at a whole byte of a block that starts at the given line, because a target cut across bytes has no byte pattern to count.
- Hex digits stand for themselves: letter case of digits is not modelled.
- The last step of `get_paths`, sorting the entries by path; the model keeps them in the order of the listing.
- Namespace.PathsRecoverNamespace: a nameless brace block directly after an object without a body is excluded, because its lines are the same as those of an object with that body.
- Declarations whose opening brace stands on their own line as part of an unfinished list; printed trees put it on the next line.
- `get_irq_choice` and the assembly of IRQ patches in `fix_irq_conflicts`; the list of IRQs to remove is arbitrary.
- `find_next_hex` looks in the table that is the DSDT or the only one loaded; the model takes it to be the listing being read.
- The order of devices in the dictionary that `list_irqs` returns, and the copy of the value text in each patch.
- Python's `int()` on text is any function that reads printed natural numbers back.
- `parse_field_line` and the splitting of a block into lines: the fields of a block are a given function of its text.
- The order of the GPU menu, which is sorted by size and by the text of a version; the choice from it is arbitrary. Names stand for indices of the offered devices.
- The printed hints and the single-device menu, which disables the rest in the same way.
- ReportRules.NoErrorIffConforms: rules without a type, which the schema does not have, are excluded; the model's types are text, dictionary and list, the three the schema uses.
- Error messages of the validator are values with a path instead of formatted text; pattern matching is a given predicate. Dictionaries are lists of entries, so repeated keys, which the source cannot have, are kept.
- Dependency closure after `uncheck_kext`: it un-checks what a kext requires, not what requires it, so closure is not kept.
- SSDT templates, boot arguments, SMBIOS choice, device tables, hash checks and the C# services: long lists or plain comparisons where each claim is one branch.
