# darktable image-operation core and favourites panels, modelled in Dafny

darktable applies an image's edits through a pipeline of image-operation
modules ("iops"). Each iop is loaded from a shared descriptor (`so`). The
develop session keeps the instances in a list ordered by `priority`, and
inside one priority by `multi_priority`. Several instances of one operation
form a group that shares an `instance` number. A history list records the
edits, and each history entry points at an instance.

This project models the bookkeeping of `src/develop/imageop.c`:

- the ordering comparator, and inserting into the sorted list
- moving an instance up or down in its group, deleting it and duplicating it, together with the history rewrites these do
- loading and validating an instance, and sizing a simple-GUI parameter block
- numbering instances after a load
- panel visibility and its two configuration keys
- the colour-space classification by pipeline position
- committing parameters to a pipeline piece, with its 64-bit djb2-style cache hash
- the Bayer-pattern lookup and the integer half-size demosaic loop
- the stride set-up of the oriented thumbnail copy

It also models the two versions of the "favourites" lighttable panel
(`src/libs/favoritestoggle.cc` and `src/libs/favoritestoggle.cpp`). The
panel puts a button on each favourite operation. A left click toggles the
operation on every selected image, and a right click applies a preset from
a menu.

The project has these modules:

- `IopTypes`: modules, states, `sort_plugins` and sorted insertion.
- `Visibility`: the configuration store and the visibility keys.
- `Develop`: the session class, with moves, deletion, duplication and state changes.
- `Load`: instance loading, `simple_init`, `dt_iop_load_modules`, `dt_iop_is_hidden` and `dt_iop_module_colorspace`.
- `Commit`: the hash and the pipeline piece.
- `Mosaic`: the Bayer lookup, the demosaic loop and the flip strides.
- `Favorites`: the `.cc` panel and the helpers both panels share.
- `FavoritesGrid`: the `.cpp` panel.

Modules are identified by a number `id` where the C code compares pointers.
The collaborators the core calls are inputs of the model:

- what a module's `init` produces
- the mask group's hash bytes
- the list `dt_dev_module_duplicate` returns
- the preset row a query returns
- the result of the legacy blend migration
- the selected images and the counts the panel queries

## Model

| member | source | states |
|---|---|---|
| IopTypes.SortPlugins | src/develop/imageop.c:88-94 | negative exactly when `a` runs first (lower priority, or equal priority and higher multi-priority), positive exactly when `b` runs first, zero exactly when both keys are equal |
| IopTypes.PrecedesTransitive | src/develop/imageop.c:88-94 | the order the comparator defines is transitive |
| IopTypes.InsertionPoint | src/develop/imageop.c:876 | the element goes after every element that runs strictly before it, and before the first one that does not |
| IopTypes.InsertSortedAt | src/develop/imageop.c:948 | the result is the list split at the insertion point with the new element between the halves |
| IopTypes.InsertSortedPermutes | src/develop/imageop.c:1491 | the result is a permutation of the old list plus the new element |
| IopTypes.InsertSortedSorted | src/develop/imageop.c:1491 | inserting into a sorted list keeps it sorted |
| IopTypes.InsertSortedBetween | src/develop/imageop.c:948 | an element whose key lies strictly between two neighbours lands between them and the list stays strictly sorted |
| IopTypes.FirstInGroup | src/develop/imageop.c:905-918 | the first position from a start index that belongs to the group, or none when no later member exists |
| IopTypes.LastInGroupBefore | src/develop/imageop.c:833-846 | the nearest earlier member of the group, or none when there is no earlier member |
| IopTypes.FirstWithSo | src/libs/favoritestoggle.cc:205-217 | the first instance loaded from the descriptor; none exactly when no instance is |
| IopTypes.RemoveAt | src/develop/imageop.c:871 | unlinking an element keeps the others in order and shifts the later ones down by one |
| Visibility.EncodeState | src/develop/imageop.c:2797-2846 | hidden writes (false, false), active (true, false) and favourite (true, true) to the `visible` and `favorite` keys; every other key is unchanged |
| Visibility.DecodeState | src/develop/imageop.c:683-696 | hidden exactly when `visible` is false, favourite exactly when both keys are true |
| Visibility.KeysDistinct | src/develop/imageop.c:687-692 | an operation's two keys differ |
| Visibility.KeysInjective | src/develop/imageop.c:2808-2811 | keys of different operations never collide |
| Visibility.StateRoundTrip | src/develop/imageop.c:686-694 | reading back a written state gives that state |
| Visibility.StateIndependent | src/develop/imageop.c:2825-2828 | writing one operation's state leaves every other operation's decoded state unchanged |
| Visibility.ReencodeDecoded | src/develop/imageop.c:683-696 | loading with a GUI rewrites the keys without changing `visible`; `favorite` is cleared when `visible` was false |
| Develop.Exchange | src/develop/imageop.c:921-924 | two instances trade multi-priorities and nothing else changes |
| Develop.SwapNeighboursValid | src/develop/imageop.c:921-948 | swapping group neighbours keeps the session invariant |
| Develop.ReinsertAfterExchange | src/develop/imageop.c:864-876 | after trading with the next module, unlinking and re-inserting gives the two swapped in place |
| Develop.ReinsertBeforeExchange | src/develop/imageop.c:936-948 | the same for a trade with the previous module |
| Develop.RemoveKeepsStrict | src/develop/imageop.c:866-875 | unlinking keeps the list strictly sorted |
| Develop.NextInGroupIsNeighbour | src/develop/imageop.c:905-918 | in a valid list, the next member of a group is the very next module |
| Develop.PreviousInGroupIsNeighbour | src/develop/imageop.c:833-846 | and the previous member is the module just before |
| Develop.MoveUpIsSwap | src/develop/imageop.c:902-948 | a move up that has a partner swaps the module with the next one |
| Develop.MoveDownIsSwap | src/develop/imageop.c:830-876 | a move down that has a partner swaps it with the previous one |
| Develop.MoveUpSwapsNeighbours | src/develop/imageop.c:905-948 | in a valid session the move up is a no-op without a partner, and otherwise swaps the neighbours and keeps the invariant |
| Develop.MoveDownSwapsNeighbours | src/develop/imageop.c:833-876 | the same for the move down |
| Develop.SwapNeighboursTwice | src/develop/imageop.c:921-924 | swapping twice restores the list |
| Develop.RetagBack | src/develop/imageop.c:926-934 | retagging forward and then back restores every history entry |
| Develop.MoveUpThenDown | src/develop/imageop.c:830-948 | a move up followed by a move down of the same module restores the list and the history |
| Develop.MoveUpKeepsHistoryConsistent | src/develop/imageop.c:926-934 | after a move every history entry still carries its module's multi-priority |
| Develop.Successor | src/develop/imageop.c:739-757 | another member of the group, and the nearest earlier one when an earlier one exists; none exactly when the module is alone in its group |
| Develop.DropModule | src/develop/imageop.c:778-779 | the entries that remain are exactly those of other modules |
| Develop.CanonicalSuccessor | src/develop/imageop.c:787-801 | the successor of a canonical member is the module just before it, since the canonical member is the last of its group |
| Develop.RemoveValid | src/develop/imageop.c:779 | removing an instance keeps the session invariant |
| Develop.DeleteValid | src/develop/imageop.c:733-801 | a deletion keeps the session invariant |
| Develop.DeleteRemovesOne | src/develop/imageop.c:757-779 | a deletion removes exactly the deleted instance when its group has another member, and changes nothing otherwise |
| Develop.DeleteKeepsCanonical | src/develop/imageop.c:787-801 | a group that had a member with multi-priority 0 still has one after the deletion |
| Develop.DeleteKeepsHistoryLive | src/develop/imageop.c:778-800 | after a deletion every history entry refers to a module that is still present |
| Develop.DeleteCanonicalOfTwo | src/develop/imageop.c:787-801 | deleting the canonical one of two instances leaves the other alone, with multi-priority 0 in the list and in its history |
| Develop.SyncHistorySynced | src/develop/imageop.c:983-990 | after the rewrite every entry of the group agrees with its module |
| Develop.SyncHistoryConsistent | src/develop/imageop.c:983-990 | a history consistent outside the group becomes consistent everywhere |
| Develop.SetStateValid | src/develop/imageop.c:2788-2796 | changing the state keeps the session invariant |
| Develop.Develop.FindNextInGroup | src/develop/imageop.c:905-919 | the walk from the head finds the module's position and the first later member of its group |
| Develop.Develop.FindPreviousInGroup | src/develop/imageop.c:833-847 | the walk from the tail finds the position and the last earlier member |
| Develop.Develop.RetagHistory | src/develop/imageop.c:926-934 | the history loop of a move performs `Retag` |
| Develop.Develop.MoveUp | src/develop/imageop.c:902-948 | the move up keeps the invariant and yields `MoveUpIops` and `MoveUpHistory` |
| Develop.Develop.MoveDown | src/develop/imageop.c:830-876 | the move down keeps the invariant and yields `MoveDownIops` and `MoveDownHistory` |
| Develop.Develop.FindSuccessor | src/develop/imageop.c:739-756 | the delete walk finds the module's position and its `Successor` |
| Develop.Develop.ZeroHistory | src/develop/imageop.c:794-800 | the history loop of a deletion performs `ZeroModule` |
| Develop.Develop.Delete | src/develop/imageop.c:733-801 | the deletion keeps the invariant and yields `DeleteIops` and `DeleteHistory` |
| Develop.Develop.Duplicate | src/develop/imageop.c:974-990 | when duplication fails nothing changes; otherwise the list is the duplicated one and the history is `SyncHistory`, with the invariant kept |
| Develop.Develop.SetState | src/develop/imageop.c:2785-2846 | every instance takes the state, the two keys encode it and decode back to it, and the invariant is kept |
| Load.OpName | src/develop/imageop.c:628 | the operation name is the longest prefix of at most 19 characters, which is the whole name when it fits |
| Load.LoadModuleBySo | src/develop/imageop.c:598-720 | priority 0 is rejected first, then an empty parameter block; on success the instance is enabled as its default, has multi-priority 0, default blend parameters and the decoded or hidden state (the same call's configuration rewrite is `LoadConf`) |
| Load.ElementCount | src/develop/imageop.c:373-379 | the number of elements before the first terminator |
| Load.SimpleInit | src/develop/imageop.c:363-417 | without a simple GUI the block is empty and `default_enabled` is left as it was; otherwise the block has 4 bytes per element, each element's default, the parameters equal the defaults, and the module is not enabled by default |
| Load.EmptySimpleGuiRefused | src/develop/imageop.c:714-719 | for a module initialised by `simple_init` (a 4-byte word per element, not enabled by default) and with its priority set, loading is refused for an empty parameter block exactly when the description has no element before the terminator; otherwise the instance loads disabled |
| Load.LoadConf | src/develop/imageop.c:683-696 | with a GUI attached, loading rewrites the two keys with the state just read: every key other than the operation's `favorite` key reads as before, and `favorite` stays set only when `visible` was set; without a GUI nothing changes |
| Load.LoadConfKeepsStates | src/develop/imageop.c:683-696 | the rewrite leaves the panel state of every operation reading as it did |
| Load.LoadsKeepStates | src/develop/imageop.c:1481-1496 | after any sequence of loads every operation's panel state reads as before, so each instance gets the state the original configuration holds |
| Load.LoadsKeepOtherKeys | src/develop/imageop.c:1481-1496 | a key that is not the `favorite` key of a loaded operation keeps its value through the loads |
| Load.LastLoadFavorite | src/develop/imageop.c:683-696 | the last load changes an operation's `favorite` key only when it loads that operation, and then clears it unless the operation is visible |
| Load.LoadsClearHiddenFavorites | src/develop/imageop.c:1481-1496 | with a GUI, after the loads an operation is a favourite exactly when it was one and, if it was loaded, was visible: a favourite left on a hidden operation is lost |
| Load.LoadStep | src/develop/imageop.c:1481-1496 | each iteration decodes the instance from the configuration the earlier loads left, which gives the same instance as the original configuration, then applies its own rewrite |
| Load.InsertStep | src/develop/imageop.c:1481-1496 | each iteration keeps the list sorted and made of exactly the instances of the descriptors seen so far that load |
| Load.LoadModulesStalls | src/develop/imageop.c:1481-1490 | as written, once a descriptor fails to load the loop never moves past it |
| Load.LoadModules | src/develop/imageop.c:1474-1506 | with failed descriptors skipped, the list is sorted, holds exactly the loadable descriptors' instances, and numbers them 0..n-1 in order; the configuration is the one the loads in turn leave |
| Load.InsertLoadable | src/develop/imageop.c:1481-1496 | the first loop inserts exactly the instances that load, keeping the list sorted, and threads each load's configuration rewrite |
| Load.NumberInstances | src/develop/imageop.c:1498-1505 | the second loop gives the k-th instance the number k and changes nothing else |
| Load.InsertedFrom | src/develop/imageop.c:1491 | insertion keeps every old element and adds only the new one |
| Load.InsertedIds | src/develop/imageop.c:1491 | the identities after an insertion are the old ones plus the new one |
| Load.LoadedListValid | src/develop/imageop.c:1498-1505 | a numbered load of operations with distinct priorities satisfies the session invariant |
| Load.IsHidden | src/develop/imageop.c:1151-1164 | visible exactly when the flags do not hide it, it has a GUI constructor and it has a GUI destructor |
| Load.Remember | src/develop/imageop.c:1622-1630 | seeing `colorin`, `colorout` or `demosaic` records its priority; other modules leave the cache unchanged |
| Load.Classify | src/develop/imageop.c:1640-1648 | Lab exactly between `colorin` (exclusive) and `colorout` (inclusive); raw exactly at or before both and before `demosaic`; RGB otherwise |
| Load.ScanFindsPriorities | src/develop/imageop.c:1615-1637 | with the three operations present once, the scan from an empty cache finds their priorities |
| Load.ScanComplete | src/develop/imageop.c:1632-1634 | stopping early once all three are known loses nothing |
| Load.ModuleColorspace | src/develop/imageop.c:1612-1649 | the cache is filled by a scan only when it is empty, and the result is the classification against it |
| Commit.SignExtend | src/develop/imageop.c:1574 | a `char` byte enters the hash with its signed value |
| Commit.StepIsTimes33 | src/develop/imageop.c:1574 | one round is the djb2 multiply by 33 followed by xor |
| Commit.HashAppend | src/develop/imageop.c:1574 | hashing a concatenation is hashing the second part from the hash of the first |
| Commit.Times33Invertible | src/develop/imageop.c:1574 | multiplying by 33 can be undone modulo 2^64 |
| Commit.StepInvertible | src/develop/imageop.c:1574 | one round can be undone given its byte |
| Commit.HashFromInjective | src/develop/imageop.c:1574 | for the same bytes, different running values give different hashes |
| Commit.SingleByteChangeDetected | src/develop/imageop.c:1574 | changing any single byte of the buffer changes the hash |
| Commit.CommitBuffer | src/develop/imageop.c:1551-1569 | the buffer is the live parameters, then the blend record only when blending is supported, then the mask hash bytes |
| Commit.HashInParts | src/develop/imageop.c:1556-1574 | the buffer's hash is its three parts hashed in turn |
| Commit.HashBytes | src/develop/imageop.c:1574 | the hash loop computes the hash of the buffer from 5381 |
| Commit.Piece.Commit | src/develop/imageop.c:1544-1580 | a disabled piece gets hash 0 and nothing else; an enabled piece gets the buffer's hash, and the piece and the module both receive the blend record; OpenCL readiness is set when the module has an OpenCL path |
| Commit.BlendChangeDetected | src/develop/imageop.c:1560-1574 | with blending, commits whose blend records differ in one byte get different hashes |
| Commit.BlendIgnoredWithoutSupport | src/develop/imageop.c:1552-1564 | without blending, the blend record does not enter the buffer |
| Mosaic.FC | src/develop/imageop.c:2212-2215 | the colour at a position is one of four values |
| Mosaic.FCPeriodic | src/develop/imageop.c:2212-2215 | the pattern repeats every eight rows and every two columns |
| Mosaic.RggbPhase | src/develop/imageop.c:2248-2253 | the phase is within the first 2x2 block |
| Mosaic.RggbPhaseAligns | src/develop/imageop.c:2248-2253 | for each of the four Bayer layouts the block at the phase reads red, green / green, blue |
| Mosaic.AlignDown | src/develop/imageop.c:2264 | `x & ~1` is the even number at or just below `x` |
| Mosaic.FootprintInside | src/develop/imageop.c:2264-2279 | along each axis the footprint is non-empty, starts on the red phase and stays inside the input |
| Mosaic.IndexInBounds | src/develop/imageop.c:2292-2295 | every sample index of a block lies inside the buffer |
| Mosaic.BlockMax | src/develop/imageop.c:2284 | the block's brightest sample is one of its four samples and at least each of them |
| Mosaic.Block | src/develop/imageop.c:2292-2301 | a block counts exactly when its clipping agrees with the centre block's, and then adds red, the two greens and blue |
| Mosaic.RowSum | src/develop/imageop.c:2290-2302 | the sums over a row of blocks stay within the bounds of 16-bit samples |
| Mosaic.GridSum | src/develop/imageop.c:2289-2302 | the same for the whole footprint |
| Mosaic.CentreBlockCounts | src/develop/imageop.c:2284-2302 | the centre block always passes its own test, so the divisor `num` is at least 1 |
| Mosaic.FootprintOf | src/develop/imageop.c:2263-2279 | the footprint's block range lies inside the input |
| Mosaic.HalfSizePixel | src/develop/imageop.c:2259-2302 | the loops accumulate exactly the footprint's grid sum, with `num` at least 1 and bounded sums, as unbounded integers |
| Mosaic.RowSumCount | src/develop/imageop.c:2289-2300 | a row counts at most one block per block start |
| Mosaic.GridSumCount | src/develop/imageop.c:2288-2300 | the footprint counts at most (block starts across) x (block starts down) blocks |
| Mosaic.HalfSizeLanesFit | src/develop/imageop.c:2286-2299 | with at most 127 blocks per radius, `num` is at most 16384 and all three sums stay below 2^31, so the signed 32-bit lanes never wrap and equal the unbounded sums |
| Mosaic.AccumulateRow | src/develop/imageop.c:2290-2302 | the inner loop adds the row's blocks to the running sums |
| Mosaic.RowStep | src/develop/imageop.c:2292-2301 | one inner iteration adds exactly one block's contribution |
| Mosaic.FlipStrides | src/develop/imageop.c:2111-2134 | the start pixel and strides address, for every output position, the source pixel of the orientation; width and height swap on transposition |
| Mosaic.OffsetIdentity | src/develop/imageop.c:2121-2134 | the stride arithmetic equals the offset of the oriented source pixel |
| Mosaic.SourcePixelBijective | src/develop/imageop.c:2111-2134 | every output position maps inside the input, and different positions map to different pixels |
| Mosaic.OffsetInsideAndDistinct | src/develop/imageop.c:2153-2154 | the byte offset of an input pixel lies inside the buffer and determines the pixel |
| Favorites.Find | src/libs/favoritestoggle.cc:333 | the first occurrence of the character from a position, or the end |
| Favorites.LastOccurrence | src/libs/favoritestoggle.cc:347 | the last position where the marker occurs, or none when it never occurs |
| Favorites.DropDefault | src/libs/favoritestoggle.cc:347-348 | the name is cut to a prefix of itself |
| Favorites.PresetNameSpec | src/libs/favoritestoggle.cc:327-350 | the extracted preset name has no markup left and is no longer than the label |
| Favorites.PresetName | src/libs/favoritestoggle.cc:327-350 | the pointer loops and in-place truncations compute the extracted name; the grid panel's copy at favoritestoggle.cpp:323-346 is the same |
| Favorites.NoOpenMeansWhole | src/libs/favoritestoggle.cc:333-334 | without `<` the whole label is kept |
| Favorites.PlainLabelKept | src/libs/favoritestoggle.cc:327-350 | a label without markup or a "(default)" marker is returned unchanged |
| Favorites.DefaultMarkerDropped | src/libs/favoritestoggle.cc:347-348 | "name (default)" gives "name" |
| Favorites.MarkupDropped | src/libs/favoritestoggle.cc:336-346 | a leading tag and everything from the next `<` on are removed |
| Favorites.MenuItems | src/libs/favoritestoggle.cc:463-512 | one entry per preset, captioned with its name and sensitive exactly when the versions match, with the duplicate flag; a single insensitive "no presets" entry when there are none; the grid panel's copy at favoritestoggle.cpp:456-500 is the same |
| Favorites.PresetMenu | src/libs/favoritestoggle.cc:476-512 | the row loop builds exactly `MenuItems` |
| Favorites.DefaultNamedPresetMangled | src/libs/favoritestoggle.cc:347-348 | as written, a preset really named "n (default)" (no `<` in n) is read back from its menu entry as "n" |
| Favorites.UnclosedNameUnreadable | src/libs/favoritestoggle.cc:337-341 | as written, a preset named "a<b" has no closing `>` for the tag loop to stop at |
| Favorites.MenuNamesRoundTrip | src/libs/favoritestoggle.cc:439-442 | reading an entry's caption gives back its preset's name for every preset |
| Favorites.LookupFrom | src/libs/favoritestoggle.cc:356-366 | the preset query finds a row exactly when a preset of the module's version has the name, and the row found is that preset's |
| Favorites.MenuPickAppliesItsPreset | src/libs/favoritestoggle.cc:439-448 | with the caption taken as the preset name, picking a usable entry queries exactly the preset the entry was made for |
| Favorites.MangledPickAppliesOtherPreset | src/libs/favoritestoggle.cc:327-350 | as written, with presets "n" and "n (default)", picking the second entry queries and applies the first preset |
| Favorites.ToggleModule | src/libs/favoritestoggle.cc:177-187 | only `enabled` can change; while the GUI resets nothing changes; otherwise it takes the requested value |
| Favorites.ToggleTarget | src/libs/favoritestoggle.cc:298-313 | in terms of the two counts: `enabled_count` counts the history entries of selected images that enable the operation (not images), `selected_count` the selected images; disable when the first count reaches the second, enable when it is 0 and the selection is non-empty, and never enable on an empty selection; the grid panel's copy at favoritestoggle.cpp:305-308 is the same |
| Favorites.ApplyPreset | src/libs/favoritestoggle.cc:356-401 | parameters and `enabled` are copied only when the blob has the right length; blend parameters come from an exact-version copy, else the migration, else the defaults; the module ends enabled; the preset is remembered exactly when it is not write-protected; the grid panel's copy at favoritestoggle.cpp:348-393 is the same |
| Favorites.ApplyPresetIdempotent | src/libs/favoritestoggle.cc:375-400 | applying the same preset twice gives the same module as applying it once |
| Favorites.EditModuleIdempotent | src/libs/favoritestoggle.cc:273 | an edit applied twice equals the edit applied once |
| Favorites.EditStackTouches | src/libs/favoritestoggle.cc:271-273 | the `.cc` panel edits only the first instance of the descriptor; the `.cpp` panel edits every instance; other modules are unchanged |
| Favorites.EditStackIdempotent | src/libs/favoritestoggle.cc:271-273 | an image edit applied twice equals the edit applied once |
| Favorites.SelectionEditsEachOnce | src/libs/favoritestoggle.cc:316-319 | without duplication, each selected image's stack is edited and every other image is unchanged |
| Favorites.ToggleSelectionAgrees | src/libs/favoritestoggle.cc:295-322 | after a selection toggle, the first instance on every selected image has the common target and unselected images are unchanged |
| Favorites.PresetSelectionEnables | src/libs/favoritestoggle.cc:431-436 | after applying a preset to the selection, the instance on every selected image is enabled |
| Favorites.GetModuleInstance | src/libs/favoritestoggle.cc:205-217 | the list walk returns the first instance of the descriptor |
| Favorites.Library.GetImageId | src/libs/favoritestoggle.cc:251-261 | the image itself, or the duplicate's id, with the history copied to the duplicate |
| Favorites.Library.ToggleOnImage | src/libs/favoritestoggle.cc:267-276 | the (possibly duplicated) image's first instance is toggled |
| Favorites.Library.ToggleOnSelection | src/libs/favoritestoggle.cc:295-322 | every selected image is toggled in order to the common target; "no image selected" is logged exactly for an empty selection |
| Favorites.Library.ApplyPresetOnImage | src/libs/favoritestoggle.cc:409-424 | a failed duplicate is reported and changes nothing; otherwise the preset is applied to the first instance; the grid panel's copy at favoritestoggle.cpp:395-417 is the same |
| Favorites.Library.ApplyPresetOnSelection | src/libs/favoritestoggle.cc:431-436 | every selected image receives the preset in order |
| Favorites.FavoriteNames | src/libs/favoritestoggle.cc:584-611 | the favourites in module order, at most one per module |
| Favorites.LayoutFromOrdered | src/libs/favoritestoggle.cc:598-607 | the cells come in strictly increasing (line, column) order |
| Favorites.LayoutCellsDistinct | src/libs/favoritestoggle.cc:598-607 | no two buttons share a cell |
| Favorites.LayoutSteps | src/libs/favoritestoggle.cc:598-607 | the first button is at (0, 0), and each next one is one column to the right or at the start of the next line |
| Favorites.RebuildVerdictCases | src/libs/favoritestoggle.cc:636-661 | the walk as written reads past the stored names exactly when they are a proper prefix of the favourites; otherwise it answers whether the two lists differ |
| Favorites.NewTrailingFavoriteReadsPastEnd | src/libs/favoritestoggle.cc:649 | a favourite added after the stored ones makes the walk dereference the end iterator |
| Favorites.Panel.constructor | src/libs/favoritestoggle.cc:682-698 | a new panel stores the favourites and their laid-out cells |
| Favorites.Panel.AddButtons | src/libs/favoritestoggle.cc:567-613 | the loop appends the favourites' names and their cells from the line-wrap layout |
| Favorites.Panel.RequiresRebuildAsWritten | src/libs/favoritestoggle.cc:636-661 | the iterator walk as written gives the verdict `RebuildVerdict` |
| Favorites.Panel.RequiresRebuild | src/libs/favoritestoggle.cc:636-661 | a rebuild is needed exactly when the current favourites differ from the stored ones |
| Favorites.Panel.Refresh | src/libs/favoritestoggle.cc:670-677 | the stored favourites become the current ones, and the buttons are laid out again exactly when they changed |
| FavoritesGrid.GridCell | src/libs/favoritestoggle.cpp:576 | the column is below 4, and reading the cell in row-major order gives the button's index |
| FavoritesGrid.GridCellsDistinct | src/libs/favoritestoggle.cpp:576-577 | different buttons get different cells |
| FavoritesGrid.GridRowsOfFour | src/libs/favoritestoggle.cpp:72 | a new row starts exactly after every fourth button |
| FavoritesGrid.GridCellUnique | src/libs/favoritestoggle.cpp:576 | a cell determines the button index |
| FavoritesGrid.GridInit | src/libs/favoritestoggle.cpp:547-585 | one button per favourite, the k-th in cell `GridCell(k)` |
| FavoritesGrid.ToggleEvery | src/libs/favoritestoggle.cpp:244-253 | the loop toggles every instance of the descriptor |
| FavoritesGrid.EveryAgreesWithFirst | src/libs/favoritestoggle.cpp:244-253 | on an image with at most one instance, toggling every instance equals toggling the first |
| FavoritesGrid.ToggleOnImage | src/libs/favoritestoggle.cpp:230-274 | every instance on the (possibly duplicated) image is toggled |
| FavoritesGrid.ToggleOnSelection | src/libs/favoritestoggle.cpp:288-320 | every selected image is toggled in order to the common target; "no image selected" is logged exactly when no row was seen |
| FavoritesGrid.ToggleSelectionEveryAgrees | src/libs/favoritestoggle.cpp:288-320 | after a selection toggle, every instance on every selected image has the target and unselected images are unchanged |

## Left out

- GTK work is not modelled: expanders, headers, buttons, icons, tooltips, menus and popup positioning. The mouse-button dispatch of the favourite buttons is not modelled either. The model keeps each callback's effect on lists and state.
- SQLite is not modelled. The preset rows, the enabled and selected counts, and the selected images are inputs.
- `dt_dev_add_history_item`, `dt_dev_write_history`, XMP sync and mipmap invalidation are not modelled. Edits change the image's module stack and no history record is kept.
- `dt_image_duplicate` is an input, the new id. A successful duplicate gets a copy of the original's module stack, standing in for `dt_history_copy_and_paste_on_image`.
- `dt_develop_blend_legacy_params` is an input: its result, or none when it fails.
- `dt_dev_module_duplicate` and `dt_dev_module_remove` are not modelled. The first is an input (the new list); the second is modelled only by its effect of dropping the module and its history entries.
- Pipeline rebuilding, cache invalidation, redraws and accelerators after a move, delete or duplicate are not modelled.
- The position search that follows the history rewrite in `dt_iop_gui_duplicate` is not modelled. It moves widgets only.
- The module's own `init`, `commit_params` and `reload_defaults` callbacks are not modelled. What `init` produces is an input.
- The mask group's hash bytes are an input.
- Floating-point code is not modelled. This includes:
  - the footprint scale and `round`, whose results `fx`, `fy` and `samples` are inputs
  - the final normalisation of the demosaic sums
  - the float demosaic and the clip-and-zoom functions
  - the colour conversions and matrix helpers
  - the scaling and clamped averaging of `dt_iop_flip_and_zoom_8` past its stride set-up
- OpenMP, SSE intrinsics and streaming stores are not modelled. The demosaic is modelled with scalar semantics for one output pixel.
- Dynamic loading (`dt_iop_load_module_so`), preset initialisation and key accelerators are not modelled. They are I/O and symbol lookup.
- Translations of "(default)", "no presets" and the log messages are not modelled. The model uses the untranslated strings.
- Labels are C strings. The model assumes they hold no NUL byte, and that configuration keys fit their 1024- or 512-byte buffers.
- The panel's DPI scaling is an input: the button gap.
- The panel width read from the configuration is an input.
- `int` overflow of the accumulated line width is not modelled.
- Favorites.PresetNameSpec: defined only for labels where a `>` follows the first `<`. For other labels the C loop runs past the end of the string.
- Favorites.Library.ApplyPresetOnImage: when the image has no instance of the operation, the C code passes NULL on and crashes. The model leaves the image unchanged and reports `NotLoaded`.
- Favorites.Panel.RequiresRebuildAsWritten: when the walk goes past the stored names, the model reports `PastEnd`. The C code then has undefined behaviour.
- IopTypes.SortPlugins: does not model overflow of the C `int` subtraction. Priorities and multi-priorities are small.
- Load.LoadModules: skips a descriptor that fails to load, where the C loop retries it forever (see Findings).
- Mosaic.HalfSizePixel: takes the footprint's start and scale as integers. It covers one output pixel; the outer loops over the output region are not modelled.
- Mosaic.HalfSizePixel: sums in unbounded integers. The C code sums in signed 32-bit lanes, which wrap once more than 16384 blocks count. That is possible from 128 blocks per radius, about a 1:256 downscale. `HalfSizeLanesFit` proves the lanes do not wrap up to 127.
- Load.NumberInstances: does not model clearing `multi_name` (imageop.c:1503). `Module` has no instance label; only the module header shows it.
- Load.LoadConf: `dt_iop_gui_set_state` also sets the state of every other instance of the operation already in the session and shows or hides their expanders. During `dt_iop_load_modules` the new instance is the only one of its operation, and expanders are GUI work.
- Commit.Piece.Commit: does not model the module's own `commit_params` callback. That callback may also clear OpenCL readiness afterwards.
- Commit: the hash is over `char` values as signed bytes. This holds on the targets darktable builds for; platforms with unsigned `char` are not modelled.
- src/lua/luastorage.c is not part of this model.

## Findings

| source | as written | input that shows it | evidently intended | confidence | as-written member | corrected member |
|---|---|---|---|---|---|---|
| src/develop/imageop.c:1486-1490 | after a failed load the loop `continue`s without advancing `iop`, so it retries the same descriptor forever | any descriptor whose `init` leaves priority 0 or an empty parameter block | skip the descriptor and load the rest | not executed | Load.LoadModulesStalls | Load.LoadModules |
| src/libs/favoritestoggle.cc:649 | `*stored` is dereferenced once more favourites exist than stored names | stored ["exposure"], favourites ["exposure", "sharpen"] | report that a rebuild is needed | not executed | Favorites.NewTrailingFavoriteReadsPastEnd | Favorites.Panel.RequiresRebuild |
| src/libs/favoritestoggle.cc:327-350 | menu entries are labelled with the plain preset name (486), but the name is read back through markup and "(default)" stripping | with presets "x" and "x (default)", picking "x (default)" looks up and applies "x"; a preset named "a<b" makes the tag loop run past the end | use the preset name as labelled | not executed | Favorites.MangledPickAppliesOtherPreset | Favorites.MenuPickAppliesItsPreset |
