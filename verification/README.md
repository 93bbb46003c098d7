# Verification of the gpui core

Dafny models of the parts of gpui that keep several data structures in step, with proofs of
what they promise. `dafny verify dfyconfig.toml` checks everything.

**Bounds tree** (`Geometry`, `PaintOrder`, `TreeShape`, `TreeGrowth`, `TreeAttach`,
`BoundsTree`, `TreeReach`). The R-tree variant that gives every painted bounds an order above
all earlier bounds it intersects. `PaintOrder` states the meaning without a tree: a linear scan
over the inserted bounds, whose orders are the lengths of longest chains of intersecting bounds.
`BoundsTree` is the class with its node table, and its `Insert` is proved to return exactly the
order of the scan. `TreeShape` is the invariant of the node table: leaf sets of children
partition the leaf set of their parent, bounds are the corner-wise extremes of the leaves, the
last child attains the maximum order. `TreeAttach` and `TreeGrowth` carry it through an
insertion, where only the nodes already passed on the way up are consistent. The comment at the
head of the tree speaks of a branching factor of 4; the constant in the code is 12, and so it is
here. Bounds may have negative sizes: nothing needs them to be positive.

**Arena** (`Bump`, `Arena`). The chunked bump arena with scopes. Live elements are aligned,
inside the used part of their chunk and disjoint; a box is valid exactly while its value is
held; values are dropped once, in allocation order; a cleared arena replays.

**App bookkeeping** (`Effects`, `WindowIndex`, `GlobalActions`). The deduplicated effect queue
and its flush, the two maps between entities and windows, and the listener lists of global
actions. Callbacks are arbitrary: what they do is a parameter that the theorems range over. The
comment in `notify` says an index entry alone does not mean that a window shows the entity, and
the code filters for that; the proof shows that the filter never removes anything.

**Text input** (`Offsets`, `TextInput`). UTF-8 and UTF-16 offsets and the selection and edit
state machine. Both conversions round up inside a character. So they are not adjoint at every
offset: `GaloisExactlyOnBoundaries` gives the exact condition, and `GaloisFailsInsideCharacter`
the smallest counterexample. The invariant of the input survives explicit ranges that are not
ordered. An explicit new selection of `replace_and_mark_text_in_range` is another matter: the
code counts its units from the start of the content instead of the new text, and moves its end by
the end of the replaced range. `ExplicitSelectionCorrectIff` says for one request when the
selection is the requested one all the same, `EverySelectionCorrectIff` for which edits it is for
every request, and `ExplicitSelectionValidIff` when it is a range of the content at all;
`ExplicitSelectionLeavesText` is an insertion where it is neither.

**Image cache** (`LruCache`), **colours** (`Color`), **dashes** (`Dashes`), **scoped tasks**
(`ScopedTasks`) and **scroll lock** (`Scroll`) are independent of the rest. Three results there
are conditions rather than promises: converting HSL to RGB and back is the identity exactly on
canonical colours, the dash loop ends exactly for arrays with a positive sum or that reach the end
of the path in their first period, and the drop of a scope can return exactly when all its futures were handed
out as tasks before. A scope that is dropped earlier, say by a panic in the closure that fills
it, waits for senders that its own list keeps alive.

`Arithmetic` and `Wrappers` hold shared facts and the option type.

## Model

| member | source | states |
|---|---|---|
| `Geometry.UnionIsLeast` | crates/gpui/src/geometry.rs:1185-1189 | `union` is the least box holding both, and absorbs a box already inside |
| `Geometry.IntersectsIffCommonPoint` | crates/gpui/src/geometry.rs:965-973 | boxes with an interior intersect exactly when their interiors share a point |
| `Geometry.IntersectsForAnySize` | crates/gpui/src/geometry.rs:965-973 | for boxes of any size: each begins before the other ends on both axes; symmetric, and kept when a box grows |
| `Geometry.UnionHalfPerimeter` | crates/gpui/src/geometry.rs:1031-1033 | the half perimeter of a union is its extent along both axes |
| `PaintOrder.Scan` | crates/gpui/src/bounds_tree.rs:458-464 | the expected orders: each entry is one above the largest order among the earlier entries it intersects |
| `PaintOrder.MaxIntersectingBounds` | crates/gpui/src/bounds_tree.rs:458-463 | the scanned maximum bounds every intersecting order and is attained |
| `PaintOrder.MaxIntersectingUnique` | crates/gpui/src/bounds_tree.rs:458-463 | those two facts determine the value |
| `PaintOrder.AssignedIsScan` | crates/gpui/src/bounds_tree.rs:458-468 | a log whose entries all follow the rule is the scan of its bounds |
| `PaintOrder.OrderIsLongestChain` | crates/gpui/src/bounds_tree.rs:116-136 | an order is the length of the longest chain of successively inserted, consecutively intersecting bounds ending there: a chain of that length exists and none is longer |
| `PaintOrder.IntersectingOrdersIncrease` | crates/gpui/src/bounds_tree.rs:116-119 | intersecting bounds get increasing orders in insertion order |
| `PaintOrder.EqualOrdersNeverIntersect` | crates/gpui/src/bounds_tree.rs:116-119 | bounds that share an order do not intersect |
| `PaintOrder.OrderAtMostPosition` | crates/gpui/src/bounds_tree.rs:123 | the k-th bounds gets an order between 1 and k, so the 32-bit increment cannot overflow below 2^32-1 leaves |
| `BoundsTrees.BoundsTree.Insert` | crates/gpui/src/bounds_tree.rs:120-136 | returns one more than the largest order among all earlier intersecting bounds, appends to the log, keeps the tree well formed and `maxLeaf` maximal |
| `BoundsTrees.BoundsTree.FindMaxOrdering` | crates/gpui/src/bounds_tree.rs:139-193 | the fast path and the pruned search both give the answer of the linear scan, and the search ends |
| `BoundsTrees.SearchStepCorrect` | crates/gpui/src/bounds_tree.rs:158-190 | popping a node, pruned or expanded, loses no better leaf and leaves less to look at |
| `BoundsTrees.FilteredChildrenSuffice` | crates/gpui/src/bounds_tree.rs:177-188 | the children that pass the order filter hold every better leaf of the node, and weigh less than it |
| `BoundsTrees.LeavesAnswerTheScan` | crates/gpui/src/bounds_tree.rs:144-150 | a value attained and not exceeded among the intersecting leaves is the scan's answer |
| `BoundsTrees.BoundsTree.InsertLeaf` | crates/gpui/src/bounds_tree.rs:197-356 | the table gains exactly one leaf, changes no other leaf, and is a well-formed tree again; the leaf goes along the best children, and one more node is added exactly when the node found already has 12 |
| `BoundsTrees.BoundsTree.BestChild` | crates/gpui/src/bounds_tree.rs:248-262 | the first child that needs the least half perimeter to take in the bounds |
| `BoundsTrees.BoundsTree.Descend` | crates/gpui/src/bounds_tree.rs:236-265 | the insert path goes from the root through best children to a node whose best child is a leaf |
| `BoundsTrees.BoundsTree.AddToNode` | crates/gpui/src/bounds_tree.rs:267-282 | adds the leaf to a node with room, and to that node only, leaving only the path above to update |
| `TreeAttach.WithChildIs` | crates/gpui/src/bounds_tree.rs:267-282 | the new leaf goes last, or just before the old last child if that one has at least its order |
| `BoundsTrees.BoundsTree.PairWithSibling` | crates/gpui/src/bounds_tree.rs:283-322 | puts the leaf and the best child of a full node under a new node, highest order last, changing no other node and leaving only the path to update |
| `TreeAttach.PairIs` | crates/gpui/src/bounds_tree.rs:283-306 | the node over two leaves takes in both, and the new leaf is last only if its order is higher |
| `TreeAttach.WithReplacedIs` | crates/gpui/src/bounds_tree.rs:305-322 | the new node takes the place of the child, or changes places with the last child if it has the highest order |
| `BoundsTrees.BoundsTree.PropagateUp` | crates/gpui/src/bounds_tree.rs:329-353 | the upward pass makes the whole tree consistent, updates every node of the path and changes no other |
| `TreeGrowth.UpdatedIs` | crates/gpui/src/bounds_tree.rs:331-353 | an update takes in the bounds and the order, and only if the order grew the child below changes places with the last one |
| `TreeGrowth.ClimbFirst` | crates/gpui/src/bounds_tree.rs:331-353 | the first step of the upward pass settles the node the leaf was attached to |
| `TreeGrowth.ClimbNext` | crates/gpui/src/bounds_tree.rs:331-353 | each further step, with its swap of the updated child to the end, settles one more path node and disturbs none |
| `TreeAttach.AddedChildReady` | crates/gpui/src/bounds_tree.rs:267-282 | after adding a child, every node off the path is consistent and the path waits for the leaf |
| `TreeAttach.PairedUpReady` | crates/gpui/src/bounds_tree.rs:283-322 | the same after pairing the leaf with its sibling |
| `BoundsTrees.RootPairOk` | crates/gpui/src/bounds_tree.rs:211-234 | a tree of one leaf becomes a well-formed node over two |
| `BoundsTrees.BoundsTree.Clear` | crates/gpui/src/bounds_tree.rs:108-114 | an empty valid tree, from any state |
| `TreeReach.EveryLeafReachedOnce` | crates/gpui/src/bounds_tree.rs:197-356 | every leaf of the table is reached from the root along exactly one path of child lists |
| `TreeReach.InsertAll` | crates/gpui/src/bounds_tree.rs:438-471 | inserting any list of bounds hands out the orders of the scan |
| `Bump.AllocateTakesLowestBlock` | crates/gpui/src/arena.rs:55-74 | an allocation succeeds exactly when an aligned block of the size is free in the chunk, and takes the lowest one |
| `Bump.PlaceIsPlaced` | crates/gpui/src/arena.rs:174-198 | the lowest free block of the current chunk is taken and nothing else changes; only when there is none, the same in the next chunk, the one already there or a new one |
| `Bump.PlacedIsUnique` | crates/gpui/src/arena.rs:174-198 | that leaves nothing open |
| `Bump.SmallBlocksSideBySide` | crates/gpui/src/arena.rs:174-198 | two small blocks fill one chunk side by side before a third starts a new chunk |
| `Bump.PlaceKeepsOk` | crates/gpui/src/arena.rs:174-198 | chunks keep their regions, at most one is added, and those beyond the current one stay empty |
| `Bump.ReplayAfterClear` | crates/gpui/src/arena.rs:150-198 | after an effective clear the same layouts get the same addresses and panics, and no chunk is added |
| `Arenas.LiveElementsDisjoint` | crates/gpui/src/arena.rs:160-210 | no two live elements overlap, in one chunk or in several |
| `Arenas.PlaceMovesForward` | crates/gpui/src/arena.rs:174-198 | a block lies aligned above everything allocated in its chunk; failure means that neither the current nor the next, empty, chunk has room |
| `Arenas.Arena.Alloc` | crates/gpui/src/arena.rs:161-210 | one element and one valid box more, at the lowest free block of the current or else the next chunk, all other chunks as they were, all invariants kept; it panics only when the layout does not fit an empty chunk |
| `Arenas.Arena.PlaceBlock` | crates/gpui/src/arena.rs:174-198 | the two attempts of `alloc` give the specified chunk state and address |
| `Arenas.Arena.ForceClear` | crates/gpui/src/arena.rs:150-158 | everything held is dropped once, in order, every box becomes invalid, every chunk empty |
| `Arenas.Arena.Clear` | crates/gpui/src/arena.rs:139-148 | an effective clear without scopes, nothing at all inside one; the capacity stays |
| `Arenas.Arena.EndScope` | crates/gpui/src/arena.rs:126-131 | ends one scope, and fails exactly when there is none |
| `Arenas.Arena.Drop` | crates/gpui/src/arena.rs:90-94 | at the end the values dropped are the values ever stored, each once, in order |
| `Arenas.Arena.Deref` | crates/gpui/src/arena.rs:228-242 | a box dereferences exactly while its value is held, and then to that value |
| `Arenas.Perform` | crates/gpui/src/arena.rs:116-210 | in any run, the scope depth follows the scopes, every store that does not panic is stored, clears requested inside scopes drop nothing and invalidate no box, and a clear outside leaves nothing held |
| `Effects.App.PushEffect` | crates/gpui/src/app.rs:1617-1633 | a notification already queued is dropped, anything else is appended; one Notify is queued for exactly the pending ids |
| `Effects.App.TakeEffect` | crates/gpui/src/app.rs:1642-1662 | effects leave in order, and a notification can be queued again from then on |
| `Effects.App.FlushEffects` | crates/gpui/src/app.rs:1638-1694 | whatever the callbacks do, the flush ends with queue and pending sets empty, having applied exactly the effects of `Drained`, in order |
| `Effects.DrainedHas` | crates/gpui/src/app.rs:1638-1694 | everything queued is applied, and so is everything pushed by the callbacks of the passes the flush goes through |
| `Effects.EnqueuedCounts` | crates/gpui/src/app.rs:1617-1633 | effects other than notifications are queued as often as they are pushed |
| `Effects.App.FinishUpdate` | crates/gpui/src/app.rs:1060-1067 | only the outermost update flushes, never inside another flush; it leaves nothing pending |
| `Effects.App.RunUpdate` | crates/gpui/src/app.rs:1049-1054 | after an outermost update nothing is pending and all its pushes are applied; a nested one applies nothing and leaves its pushes queued |
| `Effects.App.RunOps` | crates/gpui/src/app.rs:1741-1779 | callbacks that push effects and nest updates queue exactly what they push, notifications once, and flush nothing |
| `WindowIndex.WindowTable.RecordEntitiesAccessed` | crates/gpui/src/app.rs:1100-1127 | the window is listed for exactly the entities it read now, other windows as before, and the maps still mirror each other |
| `WindowIndex.RecordMirrors` | crates/gpui/src/app.rs:1106-1126 | forgetting the old entities and adding the new ones keeps the two maps mirrored |
| `WindowIndex.WindowTable.ReleaseEntity` | crates/gpui/src/app.rs:1706-1710 | a released entity leaves the index; the mirror holds for the others |
| `WindowIndex.WindowTable.RemoveWindow` | crates/gpui/src/app.rs:1843-1858 | a closed window leaves both maps, and current windows that pointed to it |
| `WindowIndex.WindowTable.NotifyEntity` | crates/gpui/src/app.rs:2639-2673 | invalidates exactly the windows whose last recorded draw read the entity, queues a plain Notify when there is none, leaves the index as it was |
| `WindowIndex.WindowInvalidator.InvalidateView` | crates/gpui/src/window.rs:153-165 | counts the update and marks the entity dirty; exactly outside a draw phase the window is due too, with a Notify queued |
| `WindowIndex.PutBack` | crates/gpui/src/app.rs:2640-2658 | the filter through the tracked entities removes nothing, and putting the taken entry back restores the index |
| `GlobalActions.App.DispatchGlobalAction` | crates/gpui/src/app.rs:2425-2470 | every listener list ends as it was followed by exactly what the calls made registered; calls go in order, then in reverse through the list with the listeners registered on the way in; a call that stops the propagation is the last one, and only such a call cuts a list short |
| `GlobalActions.VerdictIs` | crates/gpui/src/app.rs:2432-2459 | the last change of the propagation flag in a call decides whether the next listener is called |
| `GlobalActions.LogsIs` | crates/gpui/src/app.rs:2425-2470 | whatever a call registers is registered, and nothing else unless it dispatches |
| `GlobalActions.App.OnAction` | crates/gpui/src/app.rs:2207-2221 | appends one listener |
| `GlobalActions.NothingLostOrDuplicated` | crates/gpui/src/app.rs:2425-2470 | a table listing exactly what was registered still does after any dispatch |
| `GlobalActions.TakenAndPutBack` | crates/gpui/src/app.rs:2428-2447 | taking a list out and putting it back before the new registrations extends it |
| `GlobalActions.ExtendedTransitive` | crates/gpui/src/app.rs:2425-2470 | nested dispatches compose |
| `Offsets.ConvertOffset` | crates/examples/upstream/input.rs:210-238 | the loop of both conversions stops at the first boundary at or after the offset |
| `Offsets.EncodeRoundTrip` | crates/examples/upstream/input.rs:210-238 | the widths counted are the lengths of the UTF-8 and UTF-16 encodings of a character, which decode to it |
| `Offsets.LengthIsEncoded` | crates/examples/upstream/input.rs:210-238 | offsets count the bytes, or 16-bit units, of the encoded text |
| `Offsets.ConvertAtBoundary` | crates/examples/upstream/input.rs:210-238 | a boundary is converted to the same boundary in the other encoding |
| `Offsets.ConvertLandsOnBoundary` | crates/examples/upstream/input.rs:210-238 | results are character boundaries within the text |
| `Offsets.ConvertIsMonotone` | crates/examples/upstream/input.rs:210-238 | the conversions are monotone |
| `Offsets.ConvertRoundTrip` | crates/examples/upstream/input.rs:210-238 | on boundaries they are inverse to each other |
| `Offsets.ConvertRoundsUp` | crates/examples/upstream/input.rs:210-238 | elsewhere, there and back gives the least boundary at or after the offset |
| `Offsets.GaloisExactlyOnBoundaries` | crates/examples/upstream/input.rs:210-238 | the conversions are adjoint at an offset exactly when it is a boundary or not inside the text |
| `Offsets.GaloisFailsInsideCharacter` | crates/examples/upstream/input.rs:210-238 | the counterexample inside a two-byte character |
| `TextInputs.TextInput.SelectTo` | crates/examples/upstream/input.rs:197-208 | the cursor goes to the offset and the anchor stays, through any reversal |
| `TextInputs.TextInput.MoveTo` | crates/examples/upstream/input.rs:166-177 | an empty selection at the offset |
| `TextInputs.TextInput.PreviousBoundary` | crates/examples/upstream/input.rs:248-254 | the last grapheme start before the offset, or 0 |
| `TextInputs.TextInput.NextBoundary` | crates/examples/upstream/input.rs:256-261 | the first grapheme start after the offset, or the end |
| `TextInputs.NeighboursUnique` | crates/examples/upstream/input.rs:248-261 | the previous and the next grapheme boundary are determined |
| `TextInputs.TextInput.Left` | crates/examples/upstream/input.rs:49-55 | goes to the previous grapheme, or to the start of a selection |
| `TextInputs.TextInput.Right` | crates/examples/upstream/input.rs:57-63 | goes to the next grapheme, or to the end of a selection |
| `TextInputs.TextInput.SelectAll` | crates/examples/upstream/input.rs:73-76 | selects the whole text with the cursor at its end, even after a reversed selection |
| `TextInputs.TextInput.Backspace` | crates/examples/upstream/input.rs:86-96 | deletes the marked text, else the selection or the previous grapheme, and rings the bell exactly at the start |
| `TextInputs.TextInput.Delete` | crates/examples/upstream/input.rs:98-108 | deletes the marked text, else the selection or the next grapheme, and rings the bell exactly at the end |
| `TextInputs.TextInput.ReplaceTextInRange` | crates/examples/upstream/input.rs:313-332 | the text between two characters is replaced: those that the given range leads to, whatever is marked, else those of the mark, else of the selection; the cursor ends after the new text and nothing is marked |
| `TextInputs.TextInput.ReplaceAndMarkTextInRange` | crates/examples/upstream/input.rs:334-363 | the same with the new text marked; all ranges stay on boundaries within the text without an explicit selection, and with one exactly under the condition of `ExplicitSelectionValidIff` |
| `TextInputs.ExplicitSelectionCorrectIff` | crates/examples/upstream/input.rs:356-360 | an explicit selection inside the new text is the requested one exactly when its start takes the same bytes from the start of the content as in the new text, and its end makes up for the length replaced |
| `TextInputs.EverySelectionCorrectIff` | crates/examples/upstream/input.rs:356-360 | every such request is met exactly for insertions in front of which the text is, character by character, as wide as the new text |
| `TextInputs.ExplicitSelectionCorrectIffInsertion` | crates/examples/upstream/input.rs:356-360 | where the widths repeat, as at the start of the content or in one-byte text, a request is met exactly when nothing was replaced |
| `TextInputs.ExplicitSelectionValidIff` | crates/examples/upstream/input.rs:356-360 | an explicit selection is a range on boundaries of the new content exactly when the shift of each end takes up whole characters behind the units requested |
| `TextInputs.ExplicitSelectionStaysInOneByteText` | crates/examples/upstream/input.rs:356-360 | in one-byte text it stays inside exactly when its end plus the end of the replaced range is within the new length, or that end is 0 |
| `TextInputs.ExplicitSelectionLeavesText` | crates/examples/upstream/input.rs:356-360 | an insertion behind a two-byte character whose selection is not the requested one and ends outside the text |
| `TextInputs.ExplicitSelectionRightByChance` | crates/examples/upstream/input.rs:356-360 | a replacement whose selection is the requested one all the same |
| `TextInputs.SplicedRange` | crates/examples/upstream/input.rs:326-329 | the new text is a range on character boundaries of the new content |
| `TextInputs.SpliceKeepsSides` | crates/examples/upstream/input.rs:326-329 | an ordered splice keeps the text on both sides |
| `TextInputs.SpliceUndo` | crates/examples/upstream/input.rs:326-329 | replacing the new text by the removed text restores the content |
| `LruCache.RecencyOrdersByLastAccess` | crates/examples/upstream/image_gallery.rs:204-230 | the move-to-front list of a history holds exactly its keys, latest access first |
| `LruCache.LastAccessIs` | crates/examples/upstream/image_gallery.rs:204-230 | what the last access to a key is |
| `LruCache.HitStep` | crates/examples/upstream/image_gallery.rs:204-211 | moving a found key to the front of the truncated list is the step of the unbounded list |
| `LruCache.MissStep` | crates/examples/upstream/image_gallery.rs:218-230 | dropping the last key of a full list and putting a new one in front is too |
| `LruCache.SimpleLruCache.Load` | crates/examples/upstream/image_gallery.rs:193-245 | usages are the first `max_items` keys by recency and the keys of the map; a full cache evicts the oldest; it panics exactly for capacity 0 |
| `LruCache.SimpleLruCache.InSync` | crates/examples/upstream/image_gallery.rs:199-200 | the two assertions of `load` hold after any history, and no key is listed twice |
| `LruCache.LoadAll` | crates/examples/upstream/image_gallery.rs:193-245 | over any list of loads, a key is found exactly when it is among the `max_items` most recently loaded ones |
| `LruCache.StackInclusion` | crates/examples/upstream/image_gallery.rs:173-189 | of two caches with the same history the smaller one lists a prefix of the usages of the larger one, and its keys are among the keys of that one |
| `Color.RgbRoundTrip` | crates/gpui/src/color.rs:677-713 | every RGB colour in gamut survives conversion to HSL and back, with hue below 1 and all parts in range |
| `Color.HueInvertsSextant` | crates/gpui/src/color.rs:696-704 | the hue of three components leads back to them, in every sextant and on ties |
| `Color.ChromaIsSpread` | crates/gpui/src/color.rs:687-694 | lightness and saturation are in range and give back the spread of the components |
| `Color.SextantInvertsHue` | crates/gpui/src/color.rs:194-213 | every hue of a coloured value is recovered from its components |
| `Color.HslRoundTripIffCanonical` | crates/gpui/src/color.rs:194-222 | HSL to RGB stays in gamut, and back is the identity exactly on canonical colours |
| `Color.HueOneIsHueZero` | crates/gpui/src/color.rs:206-207 | the hue 1 gives the colours of the hue 0, and comes back as 0 |
| `Color.AnyHslGivesGamut` | crates/gpui/src/color.rs:194-222 | any HSL value, in range or not, gives an RGB value in gamut; a hue off the circle falls into the last part |
| `Dashes.TessellateStroke` | crates/gpui/src/path_builder.rs:286-300 | on every array for which the loop can end it does, and emits one range for each even dash before the first dash that starts beyond the path, cut off at its end |
| `Dashes.RangesCoverDrawn` | crates/gpui/src/path_builder.rs:290-300 | the ranges cover exactly the positions in even-numbered dashes of the endless pattern |
| `Dashes.RangesOrdered` | crates/gpui/src/path_builder.rs:293-297 | the ranges are in order and within the path |
| `Dashes.OddArraySamePattern` | crates/gpui/src/path_builder.rs:108-121 | an odd array draws the same pattern as its doubled form |
| `Dashes.LoopEndsIff` | crates/gpui/src/path_builder.rs:288-300 | the loop ends exactly when the array has a positive sum or reaches the end of the path in its first period; without negative entries, exactly when the sum is positive |
| `Dashes.ReachesPast` | crates/gpui/src/path_builder.rs:290-300 | with a positive sum, some dash starts beyond any path length |
| `Dashes.DashedStroke` | crates/gpui/src/path_builder.rs:108-300 | the two together, for the array as given: without negative entries the ranges cover exactly its drawn positions, in order |
| `ScopedTasks.RunKeepsSenders` | crates/gpui/src/executor.rs:427-483 | in every interleaving the senders are the scope's own until it is taken plus one per unresolved future |
| `ScopedTasks.StepMeans` | crates/gpui/src/executor.rs:118-131 | when each step can happen and what it changes: handing out leaves no future listed, and the wait ends exactly when every future is resolved |
| `ScopedTasks.DropIsABarrier` | crates/gpui/src/executor.rs:468-483 | when the drop has returned every spawned future is resolved |
| `ScopedTasks.SenderIsThereWhileOpen` | crates/gpui/src/executor.rs:451-470 | neither unwrap of the sender can fail |
| `ScopedTasks.DropReturnsIffHandedOut` | crates/gpui/src/executor.rs:118-131 | a drop that has begun can return exactly when no future is left in the list |
| `ScopedTasks.SpawnThenDropBlocks` | crates/gpui/src/executor.rs:468-483 | spawning and dropping without handing out never returns |
| `Scroll.OngoingScroll.FilterAt` | crates/gpui/src/gestures.rs:35-85 | the start of a gesture locks onto the axis moved along most; a lock is kept, and the other component zeroed, unless that one is at least 6 px, larger, and at least 1.9 times as large; the end releases it |
| `Scroll.FilterZeroesOnlyOffAxis` | crates/gpui/src/gestures.rs:66-84 | an event changes nothing, or zeroes the component off the axis, which was below 6 px or below 1.9 times the other |
| `Scroll.LockNeverSwitches` | crates/gpui/src/gestures.rs:55-77 | between gesture starts the lock keeps its axis or is given up, in every run |
| `Scroll.LockedMeansRemembered` | crates/gpui/src/gestures.rs:20-84 | a lock is held only while a last event is remembered |

## Left out

- GPU, platform windows, rendering, element painting, HTTP, clipboard, threads and clocks: foreign code and I/O. Times, new chunk addresses and grapheme boundaries are parameters.
- f32 rounding and NaN: coordinates, colours and lengths are reals.
- NodeChildren: the fixed array of 12 indices with a length is a sequence of at most 12, and nodes, chunks and elements are values in sequences; aliasing between them, which Rust excludes, is not modelled.
- BoundsTrees.BoundsTree.Insert: orders are unbounded numbers; `PaintOrder.OrderAtMostPosition` bounds them instead of a 32-bit type.
- BoundsTrees.BoundsTree.FindMaxOrdering: the search stack holds table indices, not pointers to nodes.
- Effects.App.FlushEffects: a flush whose callbacks push effects forever does not end; every flush that ends is covered by a finite script of callback behaviour.
- `App::shutdown`: it flushes outside of an update, so the flush nesting claim does not cover it.
- Effects.App.RunOps: observers, subscriptions and emitted events are not modelled beyond what they push; panics in callbacks are not modelled.
- WindowIndex.WindowTable.NotifyEntity: entity storage, the frame statistics of a window and drawing itself are not modelled.
- TextInputs.ExplicitSelectionCorrectIff: only requests inside the new text are compared with the result, since one that reaches further asks for no text; `ExplicitSelectionValidIff` covers every request.
- Mouse selection, copy, cut and paste in the text input: they combine the operations modelled here.
- ScopedTasks.DropIsABarrier: the scope, its tasks and its drop are steps of one transition system, not Rust objects; wakers and polling are left out.
- Dashes.TessellateStroke: splitting the path itself at the emitted fractions, and the empty array, on which the remainder by the array length panics for a path that is not empty.
- Dashes.DashedStroke: for arrays with negative entries, which are no lengths, only the ranges of `TessellateStroke` are stated, not a pattern.
- `SystemWindowTabController`, the keymap, `SubscriberSet`, `EntityMap`, hex colours, and the remaining geometry accessors: not part of this model.
