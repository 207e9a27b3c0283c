# Models and proofs for BuzzardOS components

These Dafny modules model the parts of the repository that change state or do real arithmetic, and prove what each of them is for.
Each component is written in the form the program has (classes and loops where it updates things in place, functions where it
computes), and every method is proved against an independent description of its effect.

| modules | component |
|---|---|
| `FileTree`, `Kernel` | Directory trees as values, and the system calls on them. `FileSystem.trace` records every state the tree passes through. A call may fail at any time for an outside reason; `FileSystem.faults` counts such failures. |
| `DesktopNames`, `DesktopTransfer`, `DesktopPaste` | Copying, moving and removing desktop items: names, the traversal budget, recursion with clean-up, staging and commit. |
| `ElementTokens`, `TokenRuns`, `TokenSurvival`, `TokenText` | The element-token store: its caps, runs of registrations against the unbounded history, how long a token lives, token text and argument resolution. |
| `IconCells`, `IconGrid` | The icon grid: geometry, first-free placement, dragging and arranging. |
| `AtomicWrite` | Atomic replacement of a file on a disk that may lose whatever has not been synced, and runs of many replacements. |
| `ClipboardProtocol`, `ClipboardAgent` | The clipboard frame codec, and the agent's requests and answers. |
| `NameOrder`, `DesktopScan`, `AppRoots` | The scan for desktop entries: choosing the first names with a bounded heap, the recursive scan under a budget, sharing the candidate limit among roots, precedence of IDs. |
| `ExecGrammar` | The Exec key of the Desktop Entry Specification (section "The Exec key"): its grammar, the tokenizer, and quoting. |
| `VerifyPolling`, `WebContent` | Polling a window until a state is stable, and keeping web content out of the verdict. |
| `CivilDate` | Unix seconds as Gregorian date and time (RFC 3339 sections 5.6 and 5.7). |
| `Text`, `Numbers`, `Wrappers` | Decimal numbers as text; minimum, maximum, powers and truncating division; `Option`, `Result` and two facts on collections. |

`dafny verify dfyconfig.toml` checks the whole project.

## Where the code does not do what one would expect

Each of these has a lemma or an `ensures` with the exact condition.

- Moving an item onto itself with Replace loses it: the exchange does nothing and the removal then takes the item
  (`guest/desktop-core/src/desktop_files.rs:508-526`). `TransferFrom` is safe in every other case, and
  `SelfReplacementLosesItem` shows why this one is not (`ReplacesItself` is the condition). The shell skips such items before it
  gets here (`guest/shell/src/main.rs:2783`), so the hazard is in the interface and not on a path the shell takes.
- When what is being replaced cannot be cleared away, because it is too big or holds a socket or device, the call fails after the
  new item is already in place (`guest/desktop-core/src/desktop_files.rs:508-526`, `:764-783`). Without outside faults `TransferFrom`
  succeeds if and only if `Arrives` and `Clears`, leaves the new item complete under its name and reports failure if and only if
  `Arrives` and not `Clears`, and changes nothing otherwise. The old item, or part of it, may then be left under the source name
  or the staging name; the staged copy's second clean-up, with a budget of its own, can still finish clearing one that was merely
  too big. `SpecialIsNotCleared` is a family of such inputs.
- A directory copied into itself is copied deeper and deeper until a limit stops it; the copy always fails and leaves the tree as
  it was (`CopyEntry`, `StageInto`). Moving a directory into itself is refused by the kernel (`RenameInto`).
- A token can come to name another window: new ids are kept apart from live ids only, so a forgotten id may be drawn again
  (`cua/src/core/element_token.rs:289-303`). `OwnWindowOnly` says how long a token means its own window, `RedrawnIdMisleads` that
  it means it no longer, and `RedrawnIdExample` is a run of three registrations.
- `atomic_write` can return an error with the new bytes in place (`guest/desktop-core/src/persistence.rs:268-279`). That is so if
  and only if the failed call is the directory sync after the rename. The error then names the directory, as it otherwise does only
  when the directory cannot be opened and nothing has been done, and `Replace` says what the disk is like (`Unsynced`). After every
  other error the old contents are there, and survive a crash as well as they did before (`CrashKept`). `UnsyncedExample` is such a state, and `UnsyncedIsNotDurable` shows that a crash may still undo it.
- Years outside 0 to 9999 are not in the RFC 3339 form (`cua/src/platform/installed_apps.rs:269-272`); `FourDigitYears` gives the
  exact range of seconds.
- Tokens have more than one accepted spelling (a leading plus sign, upper-case hexadecimal digits, leading zeros in the index), so
  formatting undoes parsing on canonical tokens only (`TokenSpelling`).
- The walk that looks for a surrounding web area stops after 32 elements (`cua/src/core/expectation.rs:699`). It finds every web
  ancestor in a listing with fewer than 32 different indexes (`WalkReachesAll`) and misses one 32 or more levels up
  (`DeepContentMissed`).

## Model

| member | source | states |
|---|---|---|
| `Kernel.FileSystem.Stat` | guest/desktop-core/src/desktop_files.rs:1333-1361 | a node is reported only if the slot holds it, and absence only if the slot is empty |
| `Kernel.FileSystem.DirectoryNames` | guest/desktop-core/src/desktop_files.rs:1207-1270 | all names of a directory, refused exactly when there are more than 65,536 |
| `Kernel.FileSystem.Create` | guest/desktop-core/src/desktop_files.rs:897-913 | an exclusive creation fills an empty slot and changes nothing else |
| `Kernel.FileSystem.Write` | guest/desktop-core/src/desktop_files.rs:915-937 | a write that fails may leave any prefix of the data in the file |
| `Kernel.FileSystem.Unlink` | guest/desktop-core/src/desktop_files.rs:1457-1476 | empties the slot of a file, a link or an empty directory |
| `Kernel.FileSystem.RenameNoReplace` | guest/desktop-core/src/desktop_files.rs:1429-1455 | moves a node to a slot that must be empty, in one step, and refuses to move a directory into itself |
| `Kernel.FileSystem.RenameExchange` | guest/desktop-core/src/desktop_files.rs:1429-1455 | exchanges two occupied slots in one step, refuses slots of which one leads to the other, and leaves a slot exchanged with itself as it is |
| `FileTree.Untouched` | guest/desktop-core/src/desktop_files.rs:798-860 | writing a slot leaves every slot apart from it unchanged |
| `FileTree.AboveReady` | guest/desktop-core/src/desktop_files.rs:1044-1057 | while a directory is being copied below itself it shows its own children and the name that leads to the copy |
| `FileTree.MaskedUsage` | guest/desktop-core/src/desktop_files.rs:678-695 | a copy with masked modes costs a traversal exactly what the original costs |
| `FileTree.CopyableRemovable` | guest/desktop-core/src/desktop_files.rs:1081-1139 | whatever can be copied from some depth can be removed from it |
| `FileTree.AcceptedExact` | guest/desktop-core/src/desktop_files.rs:798-1139 | a tree can be removed, or copied, exactly when each of its nodes is acceptable at its depth |
| `FileTree.ReasonsExact` | guest/desktop-core/src/desktop_files.rs:798-1139 | what keeps a tree from it is a socket or device, a limit on depth or directory size, or, for a copy, a link too long: nothing else |
| `FileTree.MaskedExact` | guest/desktop-core/src/desktop_files.rs:863-1079 | a copy has the same nodes at the same paths and no others, with the nine permission bits |
| `DesktopTransfer.TraversalBudget.Charge` | guest/desktop-core/src/desktop_files.rs:678-695 | one entry, and the bytes of a file's contents or of a link's target, are taken from the budget, or the charge fails; a refused byte count still costs the entry |
| `DesktopTransfer.RemoveEntry` | guest/desktop-core/src/desktop_files.rs:1081-1139 | at every state only the named slot differs; without outside faults it succeeds exactly when depth, directory sizes and budget allow, and then takes exactly the tree's entries and bytes from the budget; otherwise the error names something that is really wrong with the tree |
| `DesktopTransfer.RemoveDirectory` | guest/desktop-core/src/desktop_files.rs:1106-1134 | the same for a directory already charged for |
| `DesktopTransfer.RemoveContents` | guest/desktop-core/src/desktop_files.rs:1108-1118 | empties a directory child by child, whatever the order of its children |
| `DesktopTransfer.PartRemovedStep` | guest/desktop-core/src/desktop_files.rs:1108-1118 | a removed child has been charged exactly; one that cannot be removed keeps its directory from being removed |
| `DesktopTransfer.PartRemovedFails` | guest/desktop-core/src/desktop_files.rs:1081-1134 | the reason a child is not removed is a reason for its directory too |
| `DesktopTransfer.CopyRegular` | guest/desktop-core/src/desktop_files.rs:863-937 | creates a file with equal contents and masked mode, or unlinks what it created, so that only a second outside fault leaves something behind; only that slot ever differs |
| `DesktopTransfer.CopySymlink` | guest/desktop-core/src/desktop_files.rs:940-997 | copies a link, refused when the target fills the buffer it is read into; a failure changes nothing |
| `DesktopTransfer.CopyEntry` | guest/desktop-core/src/desktop_files.rs:798-860 | without outside faults it succeeds exactly when the source exists, the slot is free and not inside the source, every node is a file, link or directory and depth, directory sizes and budget allow; then the slot holds an equal tree with masked modes and the budget is lower by exactly its entries and bytes; a failure, copying into itself included, leaves the tree exactly as it was, as does one outside fault alone where the copy would otherwise have been made; the error names something that is really wrong |
| `DesktopTransfer.CopyDirectory` | guest/desktop-core/src/desktop_files.rs:1000-1079 | the same for a directory: a failure at any depth is cleaned up with a fresh budget that suffices |
| `DesktopTransfer.FillDirectory` | guest/desktop-core/src/desktop_files.rs:1044-1077 | when filling fails, what stands in the slot is removable within a fresh budget |
| `DesktopTransfer.CopyContents` | guest/desktop-core/src/desktop_files.rs:1045-1058 | the part copied so far costs no more than has been charged |
| `DesktopTransfer.CopyChild` | guest/desktop-core/src/desktop_files.rs:1046-1057 | one child is added to the copy, or nothing is; the child that leads to the copy itself always fails |
| `DesktopTransfer.HalfwayStep` | guest/desktop-core/src/desktop_files.rs:1045-1058 | each copied child raises the cost of the partial copy by the child's own cost |
| `DesktopTransfer.HalfwayRemovable` | guest/desktop-core/src/desktop_files.rs:1064-1077 | a partial copy obeys the limits removal checks |
| `DesktopTransfer.PartFails` | guest/desktop-core/src/desktop_files.rs:1045-1077 | a directory with a child that cannot be copied cannot be copied, and what has been made of it can be removed |
| `DesktopTransfer.PartReason` | guest/desktop-core/src/desktop_files.rs:1045-1077 | the reason a child is not copied is a reason for its directory too |
| `DesktopNames.NameExact` | guest/desktop-core/src/desktop_files.rs:1482-1492 | a name is acceptable if and only if it has 1 to 255 bytes, no slash and no NUL, and is neither of the two dot names; what is wrong otherwise |
| `DesktopNames.CopySpelling` | guest/desktop-core/src/desktop_files.rs:720-739 | a copy of a name with an extension is called by the stem, as much of it as leaves room, " (copy)" or " (copy n)", and the extension |
| `DesktopNames.CopySpellingBare` | guest/desktop-core/src/desktop_files.rs:720-739 | the same for a name without an extension, one that begins with its only dot included |
| `DesktopNames.CandidatesDiffer` | guest/desktop-core/src/desktop_files.rs:723-739 | names tried for different copy numbers differ, across suffix lengths and cut stems |
| `DesktopNames.CandidateValid` | guest/desktop-core/src/desktop_files.rs:1482-1492 | a tried name is acceptable exactly when the extension leaves room for the suffix |
| `DesktopNames.CandidateExtension` | guest/desktop-core/src/desktop_files.rs:720-739 | a tried name has the extension of the preferred name, or none if that has none |
| `DesktopNames.FirstFreeExact` | guest/desktop-core/src/desktop_files.rs:723-746 | the search ends at the first copy number that is too long or free, and in a collision exactly if there is none |
| `DesktopNames.FirstFreeFound` | guest/desktop-core/src/desktop_files.rs:723-746 | the name found is free, acceptable and keeps the extension, and all names tried before it are taken |
| `DesktopNames.KeepBothFresh` | guest/desktop-core/src/desktop_files.rs:712-747 | every name returned is absent, at most 255 bytes, and keeps the extension; a free preferred name is kept |
| `DesktopNames.ChoiceExact` | guest/desktop-core/src/desktop_files.rs:697-747 | an occupied name is given up exactly under Cancel, taken exactly under Replace, and left alone under KeepBoth, which yields the first free copy name or fails for want of one; a free name is taken |
| `DesktopNames.KeepBothNeverCollides` | guest/desktop-core/src/desktop_files.rs:712-747 | in a directory with fewer than 9,999 entries there is never a collision |
| `DesktopNames.KeepBothRoom` | guest/desktop-core/src/desktop_files.rs:729-743 | an extension part of more than 248 bytes always, one of at most 243 bytes never makes the name too long |
| `DesktopPaste.Exists` | guest/desktop-core/src/desktop_files.rs:1417-1427 | an invalid name is refused; otherwise the answer is whether the slot is occupied |
| `DesktopPaste.KeepBothName` | guest/desktop-core/src/desktop_files.rs:712-747 | the loop finds the name that the search over the directory's names yields |
| `DesktopPaste.ResolveDestinationName` | guest/desktop-core/src/desktop_files.rs:697-710 | a free name is kept; an occupied one is cancelled, replaced, or kept beside the name of the first unused copy, as chosen, and Cancelled is told of nothing else |
| `DesktopPaste.DestinationMeaning` | guest/desktop-core/src/desktop_files.rs:697-747 | the same in terms of what the directory's slots hold |
| `DesktopPaste.DestinationShape` | guest/desktop-core/src/desktop_files.rs:697-710 | the name settled on is acceptable and not the staging name, and an occupied one is chosen for Replace only |
| `DesktopPaste.CommitStaging` | guest/desktop-core/src/desktop_files.rs:749-795 | in every state the final name holds its old content or the whole copy; without outside faults it succeeds exactly when the name is free, or replaced by choice and what it held can be cleared away, and Replace puts the copy in place even when that cannot; each way of failing has its own error |
| `DesktopPaste.RenameInto` | guest/desktop-core/src/desktop_files.rs:506-550 | a move within a mount keeps the item complete under one of the two names in every state and, without outside faults, brings it to its destination whether or not what it replaced can be cleared away; a move into itself, or over a directory above it, is refused and changes nothing |
| `DesktopPaste.StageInto` | guest/desktop-core/src/desktop_files.rs:552-582 | a staged copy keeps the source and never shows an incomplete item under the final name; without outside faults a copyable item arrives whether or not what it replaced can be cleared away, and an item that cannot be copied, or would be copied into itself, leaves the tree exactly as it was; one outside fault alone leaves a copyable item in place or the tree as it was |
| `DesktopPaste.RemoveSource` | guest/desktop-core/src/desktop_files.rs:583-602 | no part of the source goes before the final name is complete, and the final name stays complete |
| `DesktopPaste.Carry` | guest/desktop-core/src/desktop_files.rs:505-607 | once the name is settled the item is renamed, or copied and then perhaps removed; exact condition for its arrival without outside faults, and what the error then means; one outside fault alone leaves the item in place or the tree as it was |
| `DesktopPaste.TransferFrom` | guest/desktop-core/src/desktop_files.rs:486-607 | in every intermediate state the item is complete at its source or its destination, the destination holds its old content or the complete item, and no other name changes; an occupied name is given up, replaced or kept beside the first unused copy name, as chosen; without outside faults it succeeds, arrives but fails, or changes nothing, each under its exact condition and with its own errors; a single outside fault leaves the item in place or the tree as it was, if the item could be copied; all this unless an item is moved onto itself with Replace |
| `DesktopPaste.SpecialIsNotCleared` | guest/desktop-core/src/desktop_files.rs:508-526 | moving an item over a socket or device brings it there and fails |
| `DesktopPaste.SelfReplacementLosesItem` | guest/desktop-core/src/desktop_files.rs:508-526 | exchanging an item with itself changes nothing, and clearing the source name then leaves no complete item |
| `ElementTokens.DiskTokenState.FreshId` | cua/src/core/element_token.rs:289-303 | the first draw that is neither zero nor live: all draws before it are one or the other |
| `ElementTokens.DiskTokenState.Register` | cua/src/core/element_token.rs:305-347 | the removal loops yield the specified lanes: the window's old snapshot replaced, the lane moved to the end and cut to 8, lanes cut to 32, all snapshots to 16 |
| `ElementTokens.DiskTokenState.EvictGlobally` | cua/src/core/element_token.rs:327-346 | the loop drops snapshots from the front until 16 are left |
| `ElementTokens.TrimmedCuts` | cua/src/core/element_token.rs:327-346 | eviction ends within the cap and only cuts fronts of lanes and of the store |
| `ElementTokens.TrimmedKeepsLast` | cua/src/core/element_token.rs:327-346 | eviction never reaches a last lane that fits by itself |
| `ElementTokens.RegisterStaysLoadable` | cua/src/core/element_token.rs:305-347 | from any lanes within the caps, of whatever schema, registering ends in a state the loader accepts, with the new snapshot last |
| `ElementTokens.RegisteredIds` | cua/src/core/element_token.rs:305-347 | registering adds its own id to the live ones and no other |
| `ElementTokens.RegisterKeepsUnique` | cua/src/core/element_token.rs:289-347 | with a fresh id, live ids stay unique |
| `TokenRuns.LatestIsCurrent` | cua/src/core/element_token.rs:305-325 | the unbounded lane holds the latest registration of each window, in registration order |
| `TokenRuns.RegisteredSuffix` | cua/src/core/element_token.rs:305-347 | what one registration makes of any lane is a suffix of what it would be without caps |
| `TokenRuns.RunInvariant` | cua/src/core/element_token.rs:305-347 | after every run each lane is a suffix of the unbounded lane, lanes and ids are unique, and the state can be loaded again |
| `TokenRuns.ResolveAgrees` | cua/src/core/element_token.rs:349-390 | a resolved id yields the window the unbounded history records for it; only live ids resolve, out-of-range indexes are told apart |
| `TokenRuns.RefusalBlames` | cua/src/core/element_token.rs:356-383 | a refusal blames another runtime exactly when that runtime holds the id and the caller's does not; an id nobody holds is stale, as is any id of a state of another schema |
| `TokenRuns.HeldSince` | cua/src/core/element_token.rs:289-347 | what a lane holds under an issued id was registered when it was issued or later |
| `TokenRuns.OwnWindowOnly` | cua/src/core/element_token.rs:289-390 | until its id is drawn again for another window, a token resolves to the window it was issued for or not at all |
| `TokenRuns.RedrawnIdMisleads` | cua/src/core/element_token.rs:289-303 | once its id is drawn again for another window, it resolves to that window |
| `TokenRuns.RedrawnIdExample` | cua/src/core/element_token.rs:289-303 | such a run |
| `TokenSurvival.ResolvesWhenIssued` | cua/src/core/element_token.rs:305-390 | right after its registration a token resolves to its window, for every index in range |
| `TokenSurvival.SurvivesWhile` | cua/src/core/element_token.rs:305-390 | it goes on doing so while nothing is lost, its window is not registered again, and fewer than eight registrations for its own lane and any number for one other lane follow |
| `TokenSurvival.TrimmedKeepsTail` | cua/src/core/element_token.rs:327-346 | what fits the total cap at the end of the store is never evicted |
| `TokenSurvival.EighthEvicts` | cua/src/core/element_token.rs:317-322 | the eighth registration of another window for its own lane evicts a token |
| `TokenSurvival.TwoLanesEvict` | cua/src/core/element_token.rs:323-346 | two registrations for two other lanes can be enough to evict it |
| `TokenText.HexAt` | cua/src/core/element_token.rs:474-476 | each hexadecimal digit is the one its place calls for |
| `TokenText.ParseHexExact` | cua/src/core/element_token.rs:489-500 | a number is read from hexadecimal digits of either case with or without a plus sign, and from nothing else |
| `TokenText.HandleExact` | cua/src/core/element_token.rs:494-500 | a snapshot handle is read if and only if it is an s and eight characters that spell a number, and as that number |
| `TokenText.HandleSpelled` | cua/src/core/element_token.rs:494-500 | the handle made from an id is read as that id |
| `TokenText.TokenExact` | cua/src/core/element_token.rs:483-492 | a token is read if and only if it is a handle, a colon and a decimal index, and as those |
| `TokenText.TokenRoundTrip` | cua/src/core/element_token.rs:474-492 | parsing undoes formatting for every id and index |
| `TokenText.TokenSpelling` | cua/src/core/element_token.rs:483-492 | an accepted token is the one formatted from its parts if and only if it is canonical |
| `TokenText.ElementArgsExact` | cua/src/core/element_token.rs:560-647 | a target is returned if and only if the token, or the handle with the index, spells it, everything else that is said agrees, and the store resolves it |
| `TokenText.AskedExact` | cua/src/core/element_token.rs:579-647 | a call that spells out an element gets what the store resolves it to, or the refusal for what is wrong: stale, of another runtime, out of range, or in conflict with the rest of the call |
| `TokenText.NotAskedExact` | cua/src/core/element_token.rs:591-625 | a call that does not is told what is missing or malformed |
| `TokenText.HandleReaches` | cua/src/core/element_token.rs:602-626 | an index and the handle the store hands out, with nothing else said, reach that element of that snapshot |
| `TokenText.NoElementExact` | cua/src/core/element_token.rs:560-580 | no element is returned if and only if none was asked for |
| `IconCells.GridExact` | guest/shell/src/desktop.rs:286-305 | the grid has exactly the cells there is room for between the margins and the bars, and its first column and row in any case |
| `IconCells.CellsOnScreen` | guest/shell/src/desktop.rs:251-305 | on a screen with room for one cell, every cell of the grid lies within its margins |
| `IconCells.RectsTile` | guest/shell/src/desktop.rs:251-258 | rectangles fill their cells but for a gap of eight, side by side, from the corner that the margins leave |
| `IconCells.DropColumnExact` | guest/shell/src/desktop.rs:151-158 | a point is dropped on the column it lies in, and one before the first or after the last on that |
| `IconCells.DropRowExact` | guest/shell/src/desktop.rs:159-163 | the same of rows |
| `IconCells.PointFindsCell` | guest/shell/src/desktop.rs:151-163 | a point in a cell's rectangle is mapped back to that cell |
| `IconCells.RectsDisjoint` | guest/shell/src/desktop.rs:251-258 | rectangles of different cells of a page share no point |
| `IconCells.CellInGrid` | guest/shell/src/desktop.rs:307-327 | every slot is a cell of the grid, and its linear index is the slot |
| `IconCells.CellOfSlot` | guest/shell/src/desktop.rs:307-327 | the cell at a cell's linear index is that cell, unless its place on the page is beyond what a 32-bit slot number counts |
| `IconCells.NextSlot` | guest/shell/src/desktop.rs:307-320 | slots run down the columns, from column to column, and from page to page |
| `IconCells.ReservedLinear` | guest/shell/src/desktop.rs:167-170 | on the first page, the test that the linear index is below two picks out the reserved cells |
| `IconCells.LayoutKeyExact` | guest/desktop-core/src/desktop_files.rs:44-48 | a layout key is valid and holds exactly the device and inode numbers |
| `IconCells.KeyValidExact` | guest/desktop-core/src/desktop_files.rs:106-113 | a key is acceptable if and only if it spells two 64-bit numbers with a colon between them |
| `Text.ParseDecimalExact` | guest/desktop-core/src/desktop_files.rs:111 | a number is read from its decimal form, with a plus sign or superfluous zeros before it, and from nothing else |
| `Text.DecimalAt` | guest/desktop-core/src/desktop_files.rs:46 | each decimal digit is the one its place calls for |
| `IconCells.LayoutRefused` | guest/desktop-core/src/desktop_files.rs:96-122 | a layout is refused exactly when it is too long, or a key or a position is out of order |
| `IconCells.MoveSettled` | guest/shell/src/desktop.rs:130-185 | a drag keeps every key in a cell of its own, in the grid and off the reserved cells |
| `IconCells.MoveTouches` | guest/shell/src/desktop.rs:171-181 | it moves the dragged key and at most the one it changes places with |
| `IconCells.MoveBack` | guest/shell/src/desktop.rs:171-181 | dragging back restores all positions |
| `IconGrid.TakenSlots` | guest/shell/src/desktop.rs:307-327 | slots that are all taken are no more than the taken cells (pigeonhole) |
| `IconGrid.FirstFreePosition` | guest/shell/src/desktop.rs:307-327 | the least free slot, at most as large as the number of taken cells, so the fallback is never used |
| `IconGrid.DesktopModel.Rescan` | guest/shell/src/desktop.rs:108-125 | positions are kept for the keys still listed and forgotten for all others |
| `IconGrid.DesktopModel.ScrollPage` | guest/shell/src/desktop.rs:87-106 | scrolling forward goes to the next page, or to the last page in use if that comes first; scrolling back goes one page back |
| `IconGrid.DesktopModel.KeepValid` | guest/shell/src/desktop.rs:199-214 | a key keeps its cell if and only if the cell is in the grid and off the reserved cells and no lesser key claims it |
| `IconGrid.DesktopModel.PlaceRest` | guest/shell/src/desktop.rs:215-226 | all other keys get free cells among the first slots, kept keys stay, and nothing changes when nothing is missing |
| `IconGrid.DesktopModel.Settle` | guest/shell/src/desktop.rs:198-226 | the same for the layout alone, and every cell in use is recorded as taken |
| `IconGrid.DesktopModel.Positioned` | guest/shell/src/desktop.rs:198-264 | every key has one cell of its own in the grid and off the reserved cells; the least claimant of a valid cell keeps it; the other items get their slots in item order, and none passes over a slot it could have had; the layout is stored, and its generation counted, exactly when something has changed; a page beyond the last one in use is left for that one; each item is drawn in the rectangle of its cell |
| `IconGrid.TightStep` | guest/shell/src/desktop.rs:215-226 | an item that is placed leaves no gap before it and comes after those placed before it |
| `IconGrid.LastTakenUsed` | guest/shell/src/desktop.rs:231-237 | the last page with a taken cell is the last page in use |
| `IconGrid.DesktopModel.MoveItem` | guest/shell/src/desktop.rs:130-185 | an unlisted item, its own cell or a reserved cell changes nothing; otherwise the first item with the path moves to the cell under the point and an occupant takes its place; only storing the layout can fail |
| `IconGrid.DesktopModel.DropItem` | guest/shell/src/desktop.rs:140-185 | the same in a layout that is settled |
| `IconGrid.DesktopModel.MoveThereAndBack` | guest/shell/src/desktop.rs:130-185 | dragging an item away and back to a point in its old rectangle restores all positions |
| `IconGrid.DesktopModel.Drag` | guest/shell/src/desktop.rs:171-184 | the key moves, an occupant takes its place, and the layout stays settled |
| `IconGrid.DesktopModel.ArrangeIcons` | guest/shell/src/desktop.rs:187-196 | all positions are forgotten and the first page is shown, unless the empty layout cannot be stored |
| `IconGrid.FillStep` | guest/shell/src/desktop.rs:215-226 | filling an empty desktop puts the next item on the next slot after the reserved ones |
| `IconGrid.NewPagesFit` | guest/desktop-core/src/desktop_files.rs:96-122 | new cells stay within 4,096 pages when items and reserved cells fit in them |
| `AtomicWrite.Replace` | guest/desktop-core/src/persistence.rs:214-285 | from any state of the disk, at every step, whatever a crash leaves a crash before could have left, but that the target may hold exactly the new bytes; after success these are durable; after an error the target is as it was, crashes included, unless only the directory sync failed, and only a second outside fault leaves a temporary name behind; exact condition for success without outside faults |
| `AtomicWrite.Finish` | guest/desktop-core/src/persistence.rs:244-279 | the same for one attempt, its clean-up included: everything done, only the directory sync missing, or nothing done; only a second outside fault leaves the temporary name behind |
| `AtomicWrite.WriteTemporary` | guest/desktop-core/src/persistence.rs:244-271 | permissions, contents, sync, rename and directory sync end with the new file under the target name; an error says how far they came |
| `AtomicWrite.Prepare` | guest/desktop-core/src/persistence.rs:244-253 | the temporary file holds all the bytes, synced, before anything is renamed |
| `AtomicWrite.Disk.Rename` | guest/desktop-core/src/persistence.rs:257-267 | a rename is one step whose effect may be lost until the directory is synced |
| `AtomicWrite.ShapeIsSafe` | guest/desktop-core/src/persistence.rs:214-285 | a crash of any state of the shape the steps keep looks like a crash of the state before, up to the new bytes |
| `AtomicWrite.KeptIsSafe` | guest/desktop-core/src/persistence.rs:244-278 | and exactly like one as long as the target has not been renamed |
| `AtomicWrite.SettledIsDurable` | guest/desktop-core/src/persistence.rs:268-270 | after the directory sync every crash keeps the new bytes |
| `AtomicWrite.CrashSafeFinds` | guest/desktop-core/src/persistence.rs:214-285 | name by name: what is found after a crash could have been found before, or is the new content of the target |
| `AtomicWrite.CleanCrashSafe` | guest/desktop-core/src/persistence.rs:214-285 | from a durable directory a crash leaves exactly the old or exactly the new bytes, and all other names as they were |
| `AtomicWrite.EndedSafely` | guest/desktop-core/src/persistence.rs:244-279 | what each way of ending means for readers and for crashes |
| `AtomicWrite.UnsyncedIsNotDurable` | guest/desktop-core/src/persistence.rs:257-270 | before the directory sync the target reads as the new bytes, and a crash may leave them or anything that was findable before |
| `AtomicWrite.UnsyncedExample` | guest/desktop-core/src/persistence.rs:268-279 | such a state |
| `AtomicWrite.SaveAll` | guest/desktop-core/src/persistence.rs:214-285 | over any number of saves, failed ones included, no crash leaves anything older than the last save that succeeded, or a mixture |
| `CivilDate.CivilExact` | cua/src/platform/installed_apps.rs:250-267 | for every day number the algorithm yields a valid Gregorian date with that day number |
| `CivilDate.DayNumberInjective` | cua/src/platform/installed_apps.rs:250-267 | it is the only such date |
| `CivilDate.CivilStep` | cua/src/platform/installed_apps.rs:250-267 | the next day number gives the next day of the calendar |
| `CivilDate.SecondsExact` | cua/src/platform/installed_apps.rs:250-272 | date and time of day recombine to the seconds, negative ones included |
| `CivilDate.NoOverflow` | cua/src/platform/installed_apps.rs:250-267 | on 64-bit seconds no intermediate value leaves its type |
| `CivilDate.Rfc3339Shape` | cua/src/platform/installed_apps.rs:269-272 | the text has the RFC 3339 form exactly for years 0 to 9999, and then reads back as date and time |
| `CivilDate.FourDigitYears` | cua/src/platform/installed_apps.rs:250-273 | the range of seconds with such years |
| `ClipboardProtocol.WireLayout` | clipboard-protocol/src/lib.rs:342-356 | every byte of an encoded frame: the magic, the numbers of version, kind, MIME type and status, the nonce, the big-endian length and the payload |
| `ClipboardProtocol.ShapeExact` | clipboard-protocol/src/lib.rs:238-285 | a frame makes sense if and only if requests have status Ok, what is put or successfully got has a MIME type and fits its limit, and nothing else carries anything |
| `ClipboardProtocol.RefusedExact` | clipboard-protocol/src/lib.rs:358-391 | bytes are refused for the first fault of the header, for announcing too much, for stopping short, or for making no sense, each with its own error |
| `ClipboardProtocol.CodesRoundTrip` | clipboard-protocol/src/lib.rs:36-138 | code conversions undo numbering |
| `ClipboardProtocol.CodesBack` | clipboard-protocol/src/lib.rs:36-138 | only the numbers that were assigned are accepted |
| `ClipboardProtocol.DecodeEncode` | clipboard-protocol/src/lib.rs:342-391 | every valid frame is read back from its encoding, whatever follows |
| `ClipboardProtocol.EncodeDecode` | clipboard-protocol/src/lib.rs:358-391 | whatever is accepted is the encoding of one valid frame |
| `ClipboardProtocol.StreamRoundTrip` | clipboard-protocol/src/lib.rs:342-391 | concatenated encodings decode to the same frames |
| `ClipboardProtocol.StreamExact` | clipboard-protocol/src/lib.rs:342-391 | an accepted stream is the concatenation of the encodings of its frames |
| `ClipboardProtocol.WriteFrame` | clipboard-protocol/src/lib.rs:342-356 | an invalid frame writes nothing; success writes exactly the encoding |
| `ClipboardProtocol.ReadFrame` | clipboard-protocol/src/lib.rs:358-391 | reads exactly one frame off the stream, or fails with the decoder's error |
| `ClipboardAgent.Worker.Exchange` | guest/clipboard-agent/src/lib.rs:508-548 | an accepted answer is a valid frame with the worker's nonce, and every such answer is accepted; anything else is refused for what is wrong with it |
| `ClipboardAgent.WaylandClipboard.Probe` | guest/clipboard-agent/src/lib.rs:350-355 | whatever the worker says of success or failure is passed on, a failure never carries Ok, and an owner that exited is forgotten |
| `ClipboardAgent.WaylandClipboard.Put` | guest/clipboard-agent/src/lib.rs:357-380 | on success the worker received exactly the content, said so, and is the owner; a failure keeps the owner; whatever the worker says of acceptable content is passed on, and other content is refused |
| `ClipboardAgent.WaylandClipboard.Get` | guest/clipboard-agent/src/lib.rs:382-395 | what is returned is exactly what the worker sent when asked, within its limit; its failures are passed on |
| `ClipboardAgent.Validated` | guest/clipboard-agent/src/lib.rs:594-610 | of a valid frame nothing but kind and status needs to be checked |
| `ClipboardAgent.Dispatch` | guest/clipboard-agent/src/lib.rs:1244-1321 | every request gets a valid frame of the paired kind and the same nonce, so building the answer never panics; the answer is what the worker said, its content or its failing status, and success is nothing else; who puts content owns the selection |
| `ClipboardAgent.ServeConnection` | guest/clipboard-agent/src/lib.rs:1370-1412 | a served connection has written that answer to the request it read, and a peer that sent no request gets none, with the reason known |
| `NameOrder.BeforeExact` | guest/desktop-core/src/desktop_entry.rs:322-340 | a name comes before another when it begins it or has the lesser character where they first differ |
| `NameOrder.PathBeforeExact` | guest/desktop-core/src/desktop_entry.rs:252 | and a path likewise, name by name |
| `NameOrder.Total` | guest/desktop-core/src/desktop_entry.rs:322-340 | names are totally ordered |
| `NameOrder.Transitive` | guest/desktop-core/src/desktop_entry.rs:322-340 | and transitively |
| `NameOrder.SortedAscending` | guest/desktop-core/src/desktop_entry.rs:340 | the sorted listing ascends |
| `NameOrder.LeadingPrefix` | guest/desktop-core/src/desktop_entry.rs:322-340 | a set of names before all others is, sorted, the beginning of the sorted listing |
| `NameOrder.FirstLeads` | guest/desktop-core/src/desktop_entry.rs:318-340 | the names chosen are as many as fit, ascending, and before all others |
| `NameOrder.FirstNames` | guest/desktop-core/src/desktop_entry.rs:318-340 | the bounded heap selects exactly the first names of the sorted listing, whatever order they come in, and reports whether there were more |
| `NameOrder.Largest` | guest/desktop-core/src/desktop_entry.rs:333-336 | the top of the heap comes after everything else in it |
| `NameOrder.IntoSorted` | guest/desktop-core/src/desktop_entry.rs:340 | emptying the heap largest first sorts it |
| `DesktopScan.RootScan.CollectDesktopFiles` | guest/desktop-core/src/desktop_entry.rs:296-376 | the scan with its mutable budget computes the specified files, entry count, saturation and complaints |
| `DesktopScan.RootScan.Examine` | guest/desktop-core/src/desktop_entry.rs:341-375 | the same for one path: links are not followed, folders are entered one level deeper |
| `DesktopScan.FoundExact` | guest/desktop-core/src/desktop_entry.rs:296-376 | a scan finds only desktop files reached through folders that can be read, at most sixteen of them below the root, and it finds them all unless it says that it was cut short, and whenever the limits are larger than the root |
| `DesktopScan.RootEvents` | guest/desktop-core/src/desktop_entry.rs:296-376 | the same, and of complaints: links, folders that cannot be read and what cannot be examined, and nothing else |
| `DesktopScan.ScanThorough` | guest/desktop-core/src/desktop_entry.rs:296-376 | whatever is due in a folder, at any depth, comes out of a scan that was not cut short |
| `DesktopScan.ScanSound` | guest/desktop-core/src/desktop_entry.rs:296-376 | whatever comes out of a scan was due |
| `DesktopScan.ScanSaturates` | guest/desktop-core/src/desktop_entry.rs:304-346 | short of its limits a scan says that it was cut short if and only if some folder lies too deep |
| `DesktopScan.ScanSpends` | guest/desktop-core/src/desktop_entry.rs:304-347 | a scan never counts more entries than there are |
| `DesktopScan.ScanCut` | guest/desktop-core/src/desktop_entry.rs:296-376 | under a quota the scan agrees with the scan under a larger one until the quota is reached, at any depth |
| `DesktopScan.QuotaTakesFirst` | guest/desktop-core/src/desktop_entry.rs:296-376 | with quota q a root yields exactly the first q candidates of the scan without a quota |
| `DesktopScan.ScanBounded` | guest/desktop-core/src/desktop_entry.rs:296-376 | entries and candidates stay within their limits, and candidates are no more than entries |
| `DesktopScan.ScanAscending` | guest/desktop-core/src/desktop_entry.rs:252 | a scan finds files in ascending path order, all below the directory scanned, so sorting them changes nothing |
| `DesktopScan.FoundAscending` | guest/desktop-core/src/desktop_entry.rs:252 | the same for a whole root |
| `AppRoots.TakenIsShare` | guest/desktop-core/src/desktop_entry.rs:219-241 | a root contributes its first candidates, as many as its share lets through |
| `AppRoots.CeilShare` | guest/desktop-core/src/desktop_entry.rs:219-241 | taking at most the share rounded up never lowers the even share of the roots that follow |
| `AppRoots.SharesWithinLimit` | guest/desktop-core/src/desktop_entry.rs:181-241 | all roots together stay within the candidate limit |
| `AppRoots.SharesAreFair` | guest/desktop-core/src/desktop_entry.rs:181-241 | each of n roots gets all its candidates, or no fewer than the limit divided by n, rounded down |
| `AppRoots.ShareExact` | guest/desktop-core/src/desktop_entry.rs:219-241 | each root contributes its first candidates, as many as an even share, rounded up, of what those before it have left |
| `AppRoots.LastTakesTheRest` | guest/desktop-core/src/desktop_entry.rs:181-241 | the last root may take everything left |
| `AppRoots.Discover` | guest/desktop-core/src/desktop_entry.rs:181-263 | the loop over the roots, missing and invalid ones included, gives each its share and lets the first file with an ID claim it; every claim is that of a reachable desktop file of a real root, and every such file with an ID, in a root whose limits are larger than it, has its ID claimed by itself or by a file that comes before it |
| `AppRoots.ShareIsReachable` | guest/desktop-core/src/desktop_entry.rs:202-241 | a root's candidates are reachable desktop files, and all of them when no limit can stop its scan |
| `AppRoots.ClaimsMean` | guest/desktop-core/src/desktop_entry.rs:252-263 | the same of the claims |
| `AppRoots.IdExact` | guest/desktop-core/src/desktop_entry.rs:32-72 | a path has an ID if and only if it ends in the name of a desktop file, none of its names is empty or a dot name or holds a control character, and the ID fits; it is the names joined |
| `AppRoots.DashedJoins` | guest/desktop-core/src/desktop_entry.rs:65 | names are joined with dashes |
| `AppRoots.ScanRoot` | guest/desktop-core/src/desktop_entry.rs:202-241 | only real directories are scanned |
| `AppRoots.ClaimedByFirst` | guest/desktop-core/src/desktop_entry.rs:252-263 | an ID belongs to the first candidate that has it, and to no other |
| `AppRoots.RootPrecedence` | guest/desktop-core/src/desktop_entry.rs:252-263 | an ID found in a root goes neither to a root of lower precedence nor to a later file of the same root |
| `ExecGrammar.BareCharacters` | guest/desktop-core/src/desktop_entry.rs:681-689 | which ASCII characters stand for themselves outside quotes |
| `ExecGrammar.QuotedCharacters` | guest/desktop-core/src/desktop_entry.rs:624-668 | and inside |
| `ExecGrammar.PieceMeanings` | guest/desktop-core/src/desktop_entry.rs:622-690 | what one piece stands for |
| `ExecGrammar.MeaningJoin` | guest/desktop-core/src/desktop_entry.rs:617-691 | pieces stand for their texts, and ask for their codes, one after the other |
| `ExecGrammar.ReadPiecesExact` | guest/desktop-core/src/desktop_entry.rs:622-690 | the inside of an argument is read as these pieces if and only if they are allowed there, are its text, and end where it ends |
| `ExecGrammar.GrammarExact` | guest/desktop-core/src/desktop_entry.rs:597-696 | a command line is read as these arguments if and only if the grammar writes it from them, with any gaps |
| `ExecGrammar.ReadsOnlyGrammar` | guest/desktop-core/src/desktop_entry.rs:597-696 | every line read is written by the grammar |
| `ExecGrammar.ReadsAllGrammar` | guest/desktop-core/src/desktop_entry.rs:597-696 | every line written by the grammar is read back, so no line has two readings |
| `ExecGrammar.AcceptedExact` | guest/desktop-core/src/desktop_entry.rs:597-733 | an executable is returned if and only if the line is short ASCII text that the grammar writes from arguments keeping the rules on executables and field codes |
| `ExecGrammar.JudgeRefuses` | guest/desktop-core/src/desktop_entry.rs:697-731 | arguments that may not be run are refused for the executable first, then for codes that do not stand alone, then for a second file code |
| `ExecGrammar.FileCodesExact` | guest/desktop-core/src/desktop_entry.rs:712-731 | the count of file codes exceeds one exactly when they occur in two places |
| `ExecGrammar.QuoteMeaning` | guest/desktop-core/src/desktop_entry.rs:622-665 | a quoted argument stands for itself |
| `ExecGrammar.QuotingExact` | guest/desktop-core/src/desktop_entry.rs:597-733 | quoting arguments and joining them with spaces is undone by the reader, and the line accepted, if and only if it fits, the first argument is not empty and has no equals sign, and all are ASCII without control bytes but tabs and newlines |
| `ExecGrammar.NextPiece` | guest/desktop-core/src/desktop_entry.rs:622-690 | one round of the inner loop reads one piece, with the source's branches and errors |
| `ExecGrammar.ReadToken` | guest/desktop-core/src/desktop_entry.rs:617-691 | the inner loop collects the meaning of all pieces up to the end of the argument |
| `ExecGrammar.NextArgument` | guest/desktop-core/src/desktop_entry.rs:611-696 | one round of the outer loop reads one argument, quotes included |
| `ExecGrammar.Tokenize` | guest/desktop-core/src/desktop_entry.rs:603-696 | the offset loop yields the meanings of the arguments, or the first error |
| `ExecGrammar.CheckToken` | guest/desktop-core/src/desktop_entry.rs:713-726 | codes that must stand alone do, and file codes are counted |
| `ExecGrammar.CheckCodes` | guest/desktop-core/src/desktop_entry.rs:712-731 | the counting loop finds exactly the violations of the rules on field codes |
| `ExecGrammar.ParseExec` | guest/desktop-core/src/desktop_entry.rs:597-733 | the whole validation computes the specified result |
| `VerifyPolling.Invoke` | cua/src/core/expectation.rs:229-337 | exactly the malformed requests are turned down; satisfied exactly when the last k samples were and no earlier run of k was, k and the time being what the caller asked for; stable is equivalent to that; an unstable satisfied end is reported unknown, outcome by outcome; at most timeout/100 rounded up plus one samples |
| `VerifyPolling.AskedExact` | cua/src/core/expectation.rs:244-260 | the loop goes by the caller's time and number of samples, or by 5 seconds, and two samples or one if there is no time |
| `VerifyPolling.PollingStep` | cua/src/core/expectation.rs:273-298 | one round keeps the count of consecutive satisfied samples exact, or stops for the right reason |
| `VerifyPolling.PacedStep` | cua/src/core/expectation.rs:293-298 | each sleep brings the clock on by the interval or to the deadline |
| `VerifyPolling.StoppedUnique` | cua/src/core/expectation.rs:267-298 | what was observed and when determines the number of samples and the verdict |
| `VerifyPolling.AggregateMeaning` | cua/src/core/expectation.rs:757-771 | satisfied means all predicates are, unsatisfied means one is |
| `VerifyPolling.UnprovenIsUnknown` | cua/src/core/expectation.rs:300-308 | relabelling an unstable satisfied sample makes the whole unknown |
| `WebContent.WebExact` | cua/src/core/expectation.rs:704-719 | an element is web content if and only if it is marked so or its role, but for capitals, spaces and underscores, has "webarea" or "document" in it or is "embedded" |
| `WebContent.BuildTable` | cua/src/core/expectation.rs:689-697 | of several elements with one index the last counts, and no other index is listed |
| `WebContent.TableIsLast` | cua/src/core/expectation.rs:689-697 | the same of the table as a function |
| `WebContent.TargetIsInWebArea` | cua/src/core/expectation.rs:688-724 | the cursor loop finds a web element among the first 32 ancestors if and only if there is one |
| `WebContent.WalkReachesAll` | cua/src/core/expectation.rs:688-724 | with fewer than 32 different indexes the bounded walk finds every web ancestor, cycles included |
| `WebContent.DeepContentMissed` | cua/src/core/expectation.rs:699-703 | an element nested at any depth below a page is recognised if and only if the depth is below 32 |
| `WebContent.WebContentHasNoSay` | cua/src/core/expectation.rs:494-646 | changing what web content shows never changes the finding of an element predicate |
| `WebContent.AbsenceIsCertain` | cua/src/core/expectation.rs:494-646 | unsatisfied is reported if and only if a complete listing without web content has no match of what was to be present, or the only trusted match shows a first field that is not as wanted |
| `WebContent.SatisfactionIsTrusted` | cua/src/core/expectation.rs:494-646 | satisfied is reported if and only if the only trusted match has all that is asked about as wanted, or there are several and nothing is asked of their fields |
| `WebContent.FindingExact` | cua/src/core/expectation.rs:541-646 | the finding and its reason for no match, one, and several |
| `WebContent.UnusableExact` | cua/src/core/expectation.rs:498-539 | and when predicate, window or source are of no use |

## Left out

- `DesktopPaste.TransferFrom`: mount points inside trees are left out, so what is below an item is on the item's mount.
- `Kernel.FileSystem.DirectoryNames`: the source sorts names; the model takes them in any order, so every result holds for the sorted order too.
- `DesktopTransfer.CopyRegular`: the process's umask, which the source's creating call is subject to, is taken to remove no bits; the modes of copied directories are set explicitly and are exact.
- `Kernel.FileSystem.Stat`: device, inode, mount and mode re-checks between calls, `O_NOFOLLOW` and permission enforcement are left out; nothing else changes the tree, and hard links are separate files.
- `DesktopPaste.StageInto`: the staging name is a parameter that is unused in the directory, as a random name is.
- `DesktopScan.RootScan.CollectDesktopFiles`: entries that a directory cannot hand out are skipped, and so are not in a listing; the branch for a path outside its root cannot be reached and is omitted.
- `DesktopScan.ScanAscending`: the sort of a root's files is omitted from `Discover`, because this lemma shows that it changes nothing.
- `AppRoots.Discover`: parsing of the claimed entries, the catalogue sorted by name and diagnostics are left out, and so are file names that are not UTF-8.
- `ExecGrammar.ParseExec`: errors are told apart by kind, not by message; unquoted control bytes and reserved characters share one kind, as in the source.
- `ElementTokens.DiskTokenState.FreshId`: random draws are a parameter; the test registry, the file and its lock are left out.
- `TokenRuns.RunInvariant`: concurrent processes that load and save the state at the same time are left out.
- `IconGrid.DesktopModel.Positioned`: points are integers, the bar heights are nonnegative parameters (guest/shell/src/model.rs is not part of this model); fewer than 4,294,967,293 items are assumed.
- `IconGrid.DesktopModel.ScrollPage`: the scroll amount is an integer.
- `AtomicWrite.Replace`: temporary names are drawn in advance, about names that the operation makes up nothing is said, and the checks on the parent directory are reduced to whether it can be opened.
- `CivilDate.SecondsExact`: directory listing and section scanning in the same file are left out.
- `ClipboardAgent.Worker.Exchange`: starting and limiting the worker, deadlines, log categories and wiping of memory are left out; whether a worker can be started and whether the owner still runs are parameters.
- `ClipboardAgent.Dispatch`: `read_pipe_bounded`, `BoundedWriter` and offer selection are left out, because each is settled by reading its one loop; image handling rests on libraries.
- `VerifyPolling.Invoke`: observations and clock readings are arbitrary sequences; argument parsing, window predicates, the screenshot and the elapsed time are left out.
- `WebContent.WebContentHasNoSay`: matching of roles and labels is an arbitrary predicate of the element, and the values reported with a finding are left out.
- `DesktopLayout::retain_items` appears inside `IconGrid.DesktopModel.Rescan`; loading, saving and schema migration of settings are left out.
- System services (Wayland, X11, D-Bus, GTK, GIO key files), JSON, tool schemas and audit scripts are left out.
