# A verified model of the kernel's data structures

This Dafny project models the hard parts of a small kernel and proves what they promise. Every operation
keeps the form it has in C: methods with loops over byte buffers, classes with fields updated in place,
atomic steps of threads. `dafny verify dfyconfig.toml` checks all of it.

- **Flattened device tree** (`Fdt*.dfy`). The format is chapter 5 of the Devicetree Specification v0.4.
  `Decode` gives a blob its meaning, a tree of named nodes with properties; NOP tags mean nothing. The
  writer, the editor, the overwriting functions, the navigation by depth counting and the full check are
  all related to that one meaning, and `FdtSample.dfy` ties the constants to the format.
- **AVL tree** (`AvlShape.dfy`, `Avl.dfy`, `Intervals.dfy`). A shape is the value that links and stored
  heights describe; the pointer operations are proved equal to functions on shapes, for arbitrary heights.
- **Slab allocator** (`SlabChain.dfy`, `Slab.dfy`). Free objects are chained by indices stored in their own
  bytes, while clients write to the live ones.
- **Page allocation** (`PageBlocks.dfy`, `PageAlloc.dfy`, `EarlyAlloc.dfy`, `Sections.dfy`). Free lists with
  per-page marks, splitting and aligned carving; the early allocator with its two lists; the section table.
- **Ticket spinlock** (`Spinlock.dfy`). Every interleaving of atomic steps of any number of threads.
- **Page-table walker** (`PageTable.dfy`, `TableRefs.dfy`, `Walker.dfy`). A loop against the recursive
  translation, the step to the next address with its carries, and the reference counts of tables that are
  allocated on the way or given up after a refusal.
- **Lists, text and dates** (`Lists.dfy`, `Convert.dfy`, `Weekday.dfy`).

`Common.dfy` and `Bytes.dfy` hold what these share.

## What turned out not to hold

The code is modelled as it is. Where a property one would expect fails, the exact condition is proved, and
a run or an input that shows the failure is given behind the semicolon.

- The room test of `fdt_add_string_` subtracts in unsigned 32 bits. It is right exactly as long as the table
  with the new string is no longer than the buffer (`FdtWriter.RoomTest`; `FdtWriter.LongName`).
- A rebalancing round of the AVL tree keeps the stored heights right exactly when it rotates not at all, or
  once with the inner side strictly lower (`AvlShape.RebalanceMeasured`; `Avl.DoubleRotation`).
- Insertion into a level tree with right heights leaves them right after every round exactly when no double
  rotation is needed, and then the tree is level again (`AvlShape.InsertLevel`; `Avl.DoubleRotation`).
- `avlnode_successor` from a node without a right child finds the next node exactly when the nodes it
  climbs over from the right have no left child (`Avl.Tree.Successor`, `AvlShape.ClimbsToNext`;
  `Avl.LastHasSuccessor`).
- After `free_range_of_pages`, `max_order` is above every order in use exactly when it was above the highest
  order of the range, or the range is a multiple of that order's block (`PageAlloc.Section.FreeRange`;
  `PageAlloc.ThreePages`).
- Setting up pages as used marks all of them exactly when there is one (`PageAlloc.Section.SetupPages`).
- `early_alloc_large_page` computes its boundary in 32 bits and panics exactly when the amount is at least
  2^20 pages and some area is large enough (`EarlyAlloc.Early.AllocLarge`; `EarlyAlloc.LargePanics`).
- A walker step at a level above the walker's own onto an absent entry, and only such a step, leaves it at a
  level without a table (`Walker.PtWalker.Next`; `Walker.StuckStep`).
- The clean-up after a refused table starts one level too high. It clears an entry that was present before the
  call exactly when the table above had one reference and there is one more above that, nothing having been
  allocated; or when all new tables but the lowest, and the one they hang under, had one
  (`Walker.PtWalker.AllocDown`, `TableRefs.Loses`; `Walker.LostEntry`).
- After that clean-up right reference counts are right again exactly when nothing was allocated and the
  parent is the top table, so that there is nothing to give up (`Walker.PtWalker.AllocDown`,
  `TableRefs.CleanUpCounts`; `Walker.LostEntry`).
- The closed form for the weekday is right exactly while its sum fits 64 bits (`Weekday.ClosedFormCounts`;
  `Weekday.WrongInTheEnd`).
- A signed parse of a text with a minus sign succeeds exactly on "-0" (`Convert.MinusMeans`).
- The loop that merges sections meets its bound exactly when there is a section (`Sections.Table.Merge`).
- The bounds under which the spinlock excludes are tight: with one more, 2^32 tickets out or 2^32 acquisitions
  inside the window of a try, two threads hold it (`Spinlock.TryNeedsFewer`, `Spinlock.WindowNeedsFewer`).
- A slab's object size survives being stored in 32 bits exactly for 1 to 0xFFFFFFF0 (`Slab.ObjectSizeStored`).
- Where a comment in `ptwalker_next_with_options` says that the root pointer is kept at the end, the code
  resets it; the model follows the code.

## Model

| member | source | states |
|---|---|---|
| `FdtFormat.LexesUnique` | kernel/fdt/fdt.c:163-222 | the tokens of a run are determined by its bytes |
| `FdtFormat.LexAppend` | kernel/fdt/fdt.c:163-222 | following the tags over a run of complete tokens yields that run and then what follows it |
| `FdtTree.ParseSound` | kernel/fdt/fdt.c:248-288 | the items a parsed node stands for are exactly the items read |
| `FdtTree.ParseComplete` | kernel/fdt/fdt.c:248-288 | parsing the items of a node gives the node back, whatever follows |
| `FdtTree.FlattenInjective` | kernel/fdt/fdt.c:248-288 | two trees with the same items are the same tree |
| `FdtTree.StaysNode` | kernel/fdt/fdt.c:248-288 | depth counting passes over a whole subtree without leaving the level it started on |
| `FdtDecode.DecodeIff` | kernel/fdt/fdt.c:163-222 | a blob decodes to a tree if and only if its tokens carry exactly the tree's items and every name is in the strings block |
| `FdtSample.SampleDecodes` | kernel/fdt/fdt.h:12-65 | a blob written out byte by byte after the specification, a NOP tag in it, decodes to the tree it stands for and the full check accepts it: field offsets, tags and byte order are those of the format |
| `FdtTags.OffsetPtrBlock` | kernel/fdt/fdt.c:141-161 | the wrap-around tests on 32-bit offsets accept exactly the ranges inside the structure block |
| `FdtTags.NextTag` | kernel/fdt/fdt.c:163-222 | the tag and next offset are those of the token at the offset, or the error for a truncated or malformed one; the next offset is aligned and ahead |
| `FdtNav.CheckNodeOffset` | kernel/fdt/fdt.c:224-234 | non-negative exactly at an aligned begin tag, and then the offset behind it |
| `FdtNav.NextNode` | kernel/fdt/fdt.c:248-288 | finds the next begin tag with its depth, the place where the depth drops below zero, or the error |
| `FdtNav.FirstSubnode` | kernel/fdt/fdt.c:290-299 | the next begin tag, if it is one level down |
| `FdtNav.NextSubnode` | kernel/fdt/fdt.c:301-316 | the first begin tag at the same level before the parent is left |
| `FdtNav.NodeEndOffset` | kernel/fdt/fdt_wip.c:74-82 | the offset at which the depth scan leaves the node |
| `FdtNav.WalkAhead` | kernel/fdt/fdt.c:301-316 | repeating fdt_next_node until a depth is reached is one scan for that depth |
| `FdtNav.EndOfNode` | kernel/fdt/fdt_wip.c:74-82 | on a decodable blob that is the end of exactly the node at the offset |
| `FdtPlace.FindPlace` | kernel/fdt/fdt.c:224-234 | every begin tag of a decodable blob is the place of one node of the tree |
| `FdtPlace.PlaceOf` | kernel/fdt/fdt.c:224-234 | every node of the decoded tree has a begin tag in the blob |
| `FdtFamily.FirstSubnodeIsFirstChild` | kernel/fdt/fdt.c:290-299 | on a decodable blob the result is the place of the first child, or NOTFOUND for a node without children |
| `FdtFamily.NextSubnodeIsNextSibling` | kernel/fdt/fdt.c:301-316 | from child k the result is the place of child k+1, all deeper nodes skipped, or NOTFOUND after the last |
| `FdtFamily.EachSubnode` | kernel/fdt/libfdt.h:239-242 | the loop visits the places of all children of the node, each once, in order |
| `FdtParent.SupernodeAtDepth` | kernel/fdt/fdt_ro.c:601-637 | computes the scan function with its depth and its errors |
| `FdtParent.NodeDepth` | kernel/fdt/fdt_ro.c:639-649 | the depth found by that scan, or its error |
| `FdtParent.ParentOffset` | kernel/fdt/fdt_ro.c:651-659 | the scan for one level less than the node's depth |
| `FdtParent.SupernodeIsAncestor` | kernel/fdt/fdt_ro.c:601-637 | on a decodable blob the scan gives the place of the ancestor at each depth up to the node's own, with the node's depth, and NOTFOUND for any greater depth |
| `FdtParent.DepthIsDepth` | kernel/fdt/fdt_ro.c:639-649 | on a decodable blob the scan that fdt_node_depth runs gives the root at offset 0 and the depth of the node in the tree |
| `FdtParent.ParentIsParent` | kernel/fdt/fdt_ro.c:651-659 | the parent offset of a child is the offset of the node that holds it |
| `FdtParent.RootHasNone` | kernel/fdt/fdt_ro.c:651-659 | asked for the parent of the root, the answer is NOTFOUND |
| `FdtProps.GetString` | kernel/fdt/fdt_ro.c:35-99 | the NUL-terminated string at the offset with its length, or the error for an offset outside or a missing NUL |
| `FdtProps.NextProp` | kernel/fdt/fdt_ro.c:202-224 | the next property tag before any other tag than NOP |
| `FdtProps.GetProperty` | kernel/fdt/fdt_ro.c:395-423 | offset and length of the first property of the name, or the error |
| `FdtProps.FindPropIn` | kernel/fdt/fdt_ro.c:395-423 | over the properties of a node the scan stops at the first one of the name and misses none |
| `FdtFind.NodenameEq` | kernel/fdt/fdt_ro.c:14-33 | a name matches itself, or its part before the unit address when none is given |
| `FdtFind.MatchesExactly` | kernel/fdt/fdt_ro.c:14-33 | a name with a unit address finds exactly the node of that very name |
| `FdtFind.MatchesUnit` | kernel/fdt/fdt_ro.c:14-33 | a name without one finds exactly the node of that name and those with any unit address behind it |
| `FdtFind.CpuMatches` | kernel/fdt/fdt_ro.c:14-33 | "cpu" finds "cpu@0", and "cpu@0" does not find "cpu" |
| `FdtFind.SubnodeOffset` | kernel/fdt/fdt_ro.c:226-243 | computes the scan over the nodes one level down |
| `FdtFind.SubNamedIsFirstMatch` | kernel/fdt/fdt_ro.c:226-243 | on a decodable blob that is the place of the first child that matches, or NOTFOUND when none does |
| `FdtCheck.CheckHeader` | kernel/fdt/fdt.c:90-139 | zero if and only if magic, versions and all block bounds are right; BADMAGIC exactly for another magic, BADVERSION exactly for versions that do not fit, TRUNCATED for the rest |
| `FdtCheck.HeaderClear` | kernel/fdt/fdt.c:70-139 | in a header that passes no block begins inside the header fields of its version |
| `FdtCheck.NumMemRsv` | kernel/fdt/fdt_ro.c:190-200 | the index of the terminating entry, or TRUNCATED when there is none inside the blob |
| `FdtCheck.CheckFull` | kernel/fdt/fdt_check.c:13-96 | ends on every buffer, short ones included; zero if and only if header, size, reservations and the tag loop are in order |
| `FdtCheck.CheckTagsIff` | kernel/fdt/fdt_check.c:13-96 | the tag loop accepts exactly the blocks that can be followed to FDT_END, well nested with at most one root, that root nameless, every property name a terminated string |
| `FdtCheck.DecodedIsAccepted` | kernel/fdt/fdt_check.c:13-96 | every blob that decodes to a tree with a nameless root at its end is accepted |
| `FdtWriter.FindString` | kernel/fdt/fdt.c:318-328 | the first place where the string and its NUL stand in the table, or none |
| `FdtWriter.RoomTest` | kernel/fdt/fdt_sw.c:259-263 | the test in unsigned 32 bits is right about the room for a string if and only if the table with it is no longer than the buffer; beyond that it refuses nothing |
| `FdtWriter.RelocGrow` | kernel/fdt/fdt_sw.c:252-267 | a string added in front of the table leaves every name written so far readable at its new offset |
| `FdtWriter.Extend` | kernel/fdt/fdt_sw.c:95-108 | a token stored in the free space extends the run written so far by that token and nothing else |
| `FdtWriter.StatesApart` | kernel/fdt/fdt_sw.c:13-73 | the writer's states exclude each other: a call of the other state is BADSTATE, every call on a finished blob too, and BADMAGIC exactly off both magics |
| `FdtWriter.Writer.Create` | kernel/fdt/fdt_sw.c:110-142 | the writer's state after a successful call, or the error for a buffer that is too small or unknown flags |
| `FdtWriter.Writer.AddReservemapEntry` | kernel/fdt/fdt_sw.c:189-207 | the entry is appended, or NOSPACE, or the state error with nothing changed |
| `FdtWriter.Writer.FinishReservemap` | kernel/fdt/fdt_sw.c:209-218 | opens the structure block with no items and all remaining space; the entries stand as they were, the terminator behind them |
| `FdtWriter.Writer.Grab` | kernel/fdt/fdt_sw.c:95-108 | gives space exactly when the two growing blocks do not meet |
| `FdtWriter.Writer.BeginNode` | kernel/fdt/fdt_sw.c:220-236 | one opening item more, or NOSPACE with nothing changed |
| `FdtWriter.Writer.EndNode` | kernel/fdt/fdt_sw.c:238-250 | one closing item more, or NOSPACE with nothing changed |
| `FdtWriter.Writer.AddString` | kernel/fdt/fdt_sw.c:252-267 | the table grows downward by the string and every item keeps its meaning, or no room and nothing changed; the copy reaches below the buffer exactly when the table with the string is longer than the buffer |
| `FdtWriter.Writer.NameOffset` | kernel/fdt/fdt_sw.c:278-293 | a negative offset at which the name stands, shared or newly added; no room, or an overrun, exactly when adding it meets one |
| `FdtWriter.Writer.Property` | kernel/fdt/fdt_sw.c:295-337 | exactly one property item more; on NOSPACE the items and the free space are as before, an added string taken back; an overrun exactly when the name has to be added to a table that is longer than the buffer with it |
| `FdtWriter.LongName` | kernel/fdt/fdt_sw.c:252-267 | a run: a buffer of 100 bytes, a name of 200 characters, and the room test lets it through |
| `FdtWriter.Writer.FixNames` | kernel/fdt/fdt_sw.c:353-378 | the loop turns every negative name offset into the offset from the start of the table |
| `FdtWriter.Writer.Finish` | kernel/fdt/fdt_sw.c:339-386 | a finished blob with exactly the items written, or NOSPACE with nothing changed; reservations and all other header words unchanged |
| `FdtRoundTrip.WriteTree` | kernel/fdt/fdt_sw.c:95-386 | for every list of reservations, every tree with NUL-free names and a large enough buffer, writing them in order succeeds, the blob decodes to exactly that tree, holds exactly those reservations with the terminator behind them, and passes the editor's probe; with a nameless root the full check accepts it |
| `FdtRoundTrip.FinishedDecodes` | kernel/fdt/fdt_sw.c:339-386 | a finished blob whose items are those of a tree decodes to it |
| `FdtRoundTrip.FinishedIsEditable` | kernel/fdt/fdt_rw.c:14-41 | every blob the writer finishes has its blocks in order and is let through by the probe of the editing functions |
| `FdtRoundTrip.WriteReservations` | kernel/fdt/fdt_sw.c:189-207 | the entries stand one behind the other as they were given, address and size |
| `FdtRoundTrip.ReservedEnd` | kernel/fdt/fdt_ro.c:190-200 | the scan for the end of the block stops at an entry if and only if its size is zero |
| `FdtSplice.EditInside` | kernel/fdt/fdt_rw.c:87-99 | replacing tokens inside a node so that the items spell another node changes the tree at that node only |
| `FdtSplice.EraseNode` | kernel/fdt/fdt_rw.c:388-400 | replacing a whole node by tokens without items removes exactly that node |
| `FdtSplice.EditProp` | kernel/fdt/fdt_rw.c:188-205 | replacing the tokens of one property changes only that property |
| `FdtEdit.ProbeIff` | kernel/fdt/fdt_rw.c:14-41 | the probe lets through exactly the finished blobs of version 17, compatible with 17, whose blocks follow each other without overlap |
| `FdtEdit.ProbeCodes` | kernel/fdt/fdt_rw.c:14-41 | which of BADMAGIC, BADVERSION, TRUNCATED and BADLAYOUT a refusal gives, each if and only if |
| `FdtEdit.Editor.SpliceStruct` | kernel/fdt/fdt_rw.c:55-99 | bytes of the structure block replaced, everything behind moved, sizes and offsets corrected; or NOSPACE with nothing changed; reservations and all other header words unchanged |
| `FdtEdit.Editor.DelProp` | kernel/fdt/fdt_rw.c:323-336 | the decoded tree loses the first property of that name and nothing else, NOTFOUND when there is none, BADOFFSET when there is no node; on any blob success cuts out exactly the property token, failure changes nothing; reservations and all other header words stay; let through exactly as `ProbeIff` says |
| `FdtEdit.Editor.DelNode` | kernel/fdt/fdt_rw.c:388-400 | the decoded tree loses exactly that node, BADOFFSET where there is none; on any blob success cuts out exactly the bytes up to the end of the node, failure changes nothing; reservations and all other header words stay; let through exactly as `ProbeIff` says |
| `FdtEdit.Editor.NopRegion` | kernel/fdt/fdt_wip.c:52-58 | the region holds NOP words and the rest is untouched |
| `FdtEdit.Editor.NopProperty` | kernel/fdt/fdt_wip.c:60-72 | for versions 16 and 17 with the blocks in any order: the decoded tree loses the first property of that name and nothing else, provided its bytes are not part of the strings block; NOTFOUND, BADOFFSET; success overwrites exactly the token, failure changes nothing |
| `FdtEdit.Editor.NopNode` | kernel/fdt/fdt_wip.c:84-95 | for versions 16 and 17 with the blocks in any order: the decoded tree loses exactly that node, provided its bytes are not part of the strings block; BADOFFSET; success overwrites exactly the node, failure changes nothing |
| `FdtEdit.NopsMeanNothing` | kernel/fdt/fdt_wip.c:52-58 | NOP tags behind complete tokens make no difference to what a block decodes to, nor to whether it does |
| `FdtEdit.NopNodeMeansDelete` | kernel/fdt/fdt_wip.c:84-95 | overwriting a node with NOP tags and deleting it decode to the same tree or both not at all, for every blob whose tags can be followed up to the node, decodable or not |
| `FdtEdit.NopPropertyMeansDelete` | kernel/fdt/fdt_wip.c:60-72 | the same for a property, the tags being followed up to it |
| `FdtInsert.FindAddString` | kernel/fdt/fdt_rw.c:122-157 | the offset of the name, found or appended, or NOSPACE with nothing changed |
| `FdtInsert.RollbackLemma` | kernel/fdt/fdt_rw.c:101-107 | taking back the last string restores both blocks |
| `FdtInsert.Resize` | kernel/fdt/fdt_rw.c:188-205 | the property gets the new value and keeps its name word, or NOSPACE with nothing changed |
| `FdtInsert.AddProperty` | kernel/fdt/fdt_rw.c:207-238 | a property token behind the begin tag, or NOSPACE with the blocks reading as before |
| `FdtInsert.SetProp` | kernel/fdt/fdt_rw.c:188-294 | the decoded tree gets exactly that property at that node; BADOFFSET when there is no node, NOSPACE exactly when there is no room, and after any failure both blocks read as before; past the probe, reservations and all other header words stay; let through exactly as `ProbeIff` says |
| `FdtInsert.GetAfterSet` | kernel/fdt/fdt_ro.c:395-423 | looking the property up afterwards gives the value set |
| `FdtInsert.WithPropKeeps` | kernel/fdt/fdt_rw.c:188-294 | setting one property leaves name and children, and every property of another name in its order; the first of the name has the value set, and setting it again changes nothing |
| `FdtInsert.AddSubnode` | kernel/fdt/fdt_rw.c:338-386 | an empty child in front of the others and nothing else, the offset returned its place; EXISTS when a child matches, NOSPACE when there is no room, nothing changed on failure; past the probe, reservations and all other header words stay; let through exactly as `ProbeIff` says |
| `FdtInsert.NewChild` | kernel/fdt/fdt_rw.c:338-386 | the offset behind the parent's properties, where the tokens were written, is the place of the new first child in the decoded tree |
| `AvlShape.OrderPlug` | lib/adt/avltree.c:412-486 | cutting a subtree out and filling the place changes the in-order sequence there only |
| `AvlShape.OrderOnce` | lib/adt/avltree.c:331-360 | every node stands once in the in-order sequence |
| `AvlShape.RotatedLeft` | lib/adt/avltree.c:151-175 | the links after the rotation are consistent again, all other nodes untouched |
| `AvlShape.RotatedRight` | lib/adt/avltree.c:177-201 | the same for the other direction |
| `AvlShape.RebalanceSame` | lib/adt/avltree.c:234-305 | whatever the heights hold, a round keeps the nodes and their order |
| `AvlShape.RebalanceMeasured` | lib/adt/avltree.c:234-305 | over right heights a round leaves all heights right if and only if it rotates not at all, or once with the inner side lower |
| `AvlShape.RebalanceLevel` | lib/adt/avltree.c:234-305 | a round over level subtrees with right heights whose depths differ by at most two gives a level tree by true depth, not deeper than before, and one less deep after a rotation over unequal sides |
| `AvlShape.GrownClimb` | lib/adt/avltree.c:234-305 | the climb above a subtree grown by one finds right heights after every round if and only if the subtree grew on the outside wherever a node became too heavy; then it ends level with all heights right |
| `AvlShape.SettledClimb` | lib/adt/avltree.c:234-305 | above a subtree as deep as before nothing is left to repair: level with right heights all the way up |
| `AvlShape.InsertLevel` | lib/adt/avltree.c:331-360 | insertion into a level tree with right heights keeps the heights right after every round if and only if no double rotation is needed; then the tree is level again with right heights |
| `AvlShape.ClimbKeeps` | lib/adt/avltree.c:234-305 | whatever the heights hold, the whole climb keeps the nodes and their order |
| `AvlShape.SpotFits` | lib/adt/avltree.c:331-360 | the place a descent ends at cuts the in-order sequence in two |
| `AvlShape.SpotSorted` | lib/adt/avltree.c:331-360 | when the answers fall along the sequence, the descent is stopped exactly by an equal node anywhere, and else ends between the two sides |
| `AvlShape.ClimbsToNext` | lib/adt/avltree.c:390-410 | the climb stops at the next node in order if and only if no node passed from the right has a left child |
| `AvlShape.VacatedOrder` | lib/adt/avltree.c:412-486 | around the place a deletion vacates stands the old sequence without the node |
| `AvlShape.WithoutOrder` | lib/adt/avltree.c:412-486 | a deletion takes exactly the node out of the sequence |
| `AvlShape.SwappedNear` | lib/adt/avltree.c:449-475 | after the swap with a successor that is the right child all links are consistent |
| `AvlShape.SwappedDeep` | lib/adt/avltree.c:424-448 | after the swap with a successor further down all links are consistent |
| `Avl.RotateLeft` | lib/adt/avltree.c:151-175 | the linked shape becomes the rotated shape, heights and outer links unchanged |
| `Avl.RotateRight` | lib/adt/avltree.c:177-201 | the same for the other direction |
| `Avl.ResetHeight` | lib/adt/avltree.c:213-215 | one more than the higher child, in 32 bits |
| `Avl.Tree.NodeLink` | lib/adt/avltree.c:217-225 | the field that points to the node |
| `Avl.Tree.FixRight` | lib/adt/avltree.c:248-271 | the right-heavy round yields the rebalanced shape in the same place |
| `Avl.Tree.FixLeft` | lib/adt/avltree.c:272-295 | the left-heavy round likewise |
| `Avl.Tree.Fixup` | lib/adt/avltree.c:234-305 | ends for all heights, and the tree is the climb of the shape it started with, all links consistent |
| `Avl.Tree.InsertAt` | lib/adt/avltree.c:307-329 | the node hangs at the link as a leaf and the tree is the climb from there |
| `Avl.Tree.Descend` | lib/adt/avltree.c:338-356 | ends at an equal node or at the empty link the comparator leads to |
| `Avl.Tree.Insert` | lib/adt/avltree.c:331-360 | false with nothing changed exactly when the comparator says equal on the way; else the old sequence with exactly the node put in where the descent ended, links consistent |
| `Avl.Tree.FindSuccessor` | lib/adt/avltree.c:424-430 | the leftmost node with its parent |
| `Avl.Tree.SwapNear` | lib/adt/avltree.c:449-475 | node and right child have changed places, heights included |
| `Avl.Tree.SwapDeep` | lib/adt/avltree.c:421-448 | node and successor have changed places, heights included |
| `Avl.Tree.Unlink` | lib/adt/avltree.c:477-485 | a node with at most one child gives its place to it, and the tree is the climb from there |
| `Avl.Tree.Delete` | lib/adt/avltree.c:412-486 | the old sequence without exactly that node, links consistent, for all heights |
| `Avl.Tree.Successor` | lib/adt/avltree.c:390-410 | the next node in order if there is a right child; else right if and only if the path is clear |
| `Avl.DoubleRotation` | lib/adt/avltree.c:272-295 | a run of three insertions after which two stored heights are wrong |
| `Avl.LastHasSuccessor` | lib/adt/avltree.c:390-410 | in that tree the last node of the sequence is given a successor |
| `Intervals.OverlapsMeans` | lib/adt/range.c:233-244 | two non-empty ranges overlap if and only if they share a location |
| `Intervals.Falls` | lib/adt/addrspace.c:226-238 | against disjoint ranges in order the comparator says greater, then equal, then less |
| `Intervals.SpotOfRange` | lib/adt/addrspace.c:226-238 | the descent is stopped if and only if the range overlaps some stored one, and else ends where the order is kept |
| `Intervals.InsertRange` | lib/adt/avltree.c:331-360 | refused exactly when the range overlaps one stored anywhere in the tree; the ranges stay disjoint and in order |
| `Intervals.DeleteRange` | lib/adt/avltree.c:412-486 | the ranges stay disjoint and in order |
| `SlabChain.ChainUnique` | kernel/mm/slab.c:107-117 | the bytes of the slab decide the chain of free objects |
| `SlabChain.ChainStore` | kernel/mm/slab.c:119-157 | writing into an object off the chain leaves the chain as it is |
| `SlabChain.ChainPush` | kernel/mm/slab.c:205-206 | storing the old first index in an object puts it in front of the chain |
| `SlabChain.FreshChain` | kernel/mm/slab.c:79-94 | the links of a new slab run through all objects to the end mark |
| `SlabChain.BlankLink` | kernel/mm/slab.c:205-206 | storing a link touches no byte of a free object behind its link word |
| `SlabChain.BlankClear` | kernel/mm/slab.c:168-178 | clearing an object leaves it zero like the free ones |
| `Slab.Allocator.constructor` | kernel/mm/slab.c:24-56 | object size the least multiple of 16 that holds the argument, the least power-of-two number of pages that holds four such objects, and exactly as many objects as those pages hold |
| `Slab.SlabSizes` | kernel/mm/slab.c:24-56 | those three sizes, for every argument and page size |
| `Slab.Allocator.Choose` | kernel/mm/slab.c:119-136 | the first listed slab, a new one only when none is listed; every live object keeps its bytes |
| `Slab.Allocator.Thread` | kernel/mm/slab.c:79-94 | the loop leaves the chain of all objects |
| `Slab.Allocator.NewSlab` | kernel/mm/slab.c:58-97 | a listed slab with all objects free, counters up to date |
| `Slab.Allocator.Take` | kernel/mm/slab.c:137-150 | the first object of the chain leaves it; the slab leaves the list with its last free object |
| `Slab.Allocator.Alloc` | kernel/mm/slab.c:119-157 | fails exactly when no slab has a free object and there are no pages; else the object was not live and is now, every live object keeps its bytes, and every slab, list and counter stays sound; the object handed out is zero behind its link word, and no slab is added while one is listed |
| `Slab.Allocator.Release` | kernel/mm/slab.c:168-213 | the slab's new chain and bytes, or the slab given back |
| `Slab.Allocator.Free` | kernel/mm/slab.c:168-213 | exactly that object is not live any more, every other live object keeps its bytes, the slab is given back exactly with its last live object |
| `Slab.Allocator.Write` | kernel/mm/slab.c:119-157 | a client's write to a live object changes that object only and keeps the allocator sound |
| `Slab.LastLive` | kernel/mm/slab.c:187-203 | an object is the last live one of its slab if and only if all others are counted free |
| `Slab.FreedBlank` | kernel/mm/slab.c:168-206 | a freed object joins the others that are zero behind their links |
| `Slab.ObjectsApart` | kernel/mm/slab.c:99-105 | two objects of a slab share no byte |
| `Slab.FreeTotals` | kernel/mm/slab.c:184-193 | the counters stay the sums over all slabs modulo 2^32 |
| `Slab.ObjectSizeStored` | kernel/mm/slab.c:24-46 | the stored object size is the aligned one and not zero if and only if the argument is between 1 and 0xFFFFFFF0 |
| `Spinlock.StepRefines` | kernel/cpu/spinlock.c:13-38 | an atomic step on 32-bit counters is the step of the unbounded machine seen modulo 2^32 |
| `Spinlock.RunRefines` | kernel/cpu/spinlock.c:13-38 | the same for every run |
| `Spinlock.Turn` | kernel/cpu/spinlock.c:13-23 | a spinning thread sees its ticket exactly when its turn has come, and then nobody holds the lock |
| `Spinlock.Swap` | kernel/cpu/spinlock.c:29-38 | a try succeeds only on a free lock with nobody waiting |
| `Spinlock.TryGoesOn` | kernel/cpu/spinlock.c:29-38 | in every run a try that has looked at front has gone on to its swap or given up, and one that has swapped holds the lock or has given up; it is never back at an earlier step |
| `Spinlock.TryLooks` | kernel/cpu/spinlock.c:29-38 | within the bounds the comparisons in 32 bits are right: a try goes on if and only if no ticket was out, and succeeds if and only if none was taken since |
| `Spinlock.TryAlone` | kernel/cpu/spinlock.c:29-38 | a try with nothing in between gives up on any lock with a ticket out, a held one in particular, and leaves the state as it was; else it holds the lock, the next ticket its own |
| `Spinlock.StepIsOwn` | kernel/cpu/spinlock.c:13-38 | a step changes no other thread |
| `Spinlock.StepKeeps` | kernel/cpu/spinlock.c:13-38 | every step keeps: tickets out are owned once each, the holder has the lowest, acquisitions came in ticket order |
| `Spinlock.MutualExclusion` | kernel/cpu/spinlock.c:13-38 | in every bounded run of any number of threads at most one holds the lock |
| `Spinlock.TicketOrder` | kernel/cpu/spinlock.c:13-38 | the lock is acquired with tickets 0, 1, 2 and so on |
| `Spinlock.NextWaiter` | kernel/cpu/spinlock.c:13-27 | a free lock with tickets out enables exactly one waiting thread, the one with the next ticket; a held lock none |
| `Spinlock.TryNeedsFewer` | kernel/cpu/spinlock.c:29-38 | a run that never has more than 2^32 tickets out, one more than the bound allows, and no ticket given out during a try, ends with two threads holding the lock |
| `Spinlock.SpinNeedsFewer` | kernel/cpu/spinlock.c:13-23 | a run without any try that never has more than 2^32 + 1 tickets out ends with two threads holding the lock |
| `Spinlock.WindowNeedsFewer` | kernel/cpu/spinlock.c:29-38 | a run with at most one ticket out at a time and at most 2^32 given out during a try, one more than the bound allows, ends with two threads holding the lock |
| `PageBlocks.BlocksApart` | kernel/mm/page_alloc.c:15-39 | free blocks never share a page |
| `PageBlocks.AddBlock` | kernel/mm/page_alloc.c:15-62 | listing a marked block keeps all others sound and frees exactly its pages |
| `PageBlocks.RemoveBlock` | kernel/mm/page_alloc.c:89-97 | taking a block off its list takes exactly its pages out of the free set |
| `PageAlloc.Section.AddFromHigher` | kernel/mm/page_alloc.c:42-62 | a buddy becomes a free block with correct marks, all others untouched |
| `PageAlloc.Section.AddToFreelist` | kernel/mm/page_alloc.c:15-39 | the same for pages that were not marked, counted in the total |
| `PageAlloc.Section.TakeOff` | kernel/mm/page_alloc.c:89-135 | the block leaves its list; min_order and max_order stay bounds |
| `PageAlloc.Section.Split` | kernel/mm/page_alloc.c:375-389 | everything of the block but the pages asked for is free again |
| `PageAlloc.Section.AllocPages` | kernel/mm/page_alloc.c:343-397 | fails exactly when the section has no block of the order or above; the pages returned were free and are exactly what left the free set; counts, total and order bounds stay right; they are the front of the first block of the lowest order that has one |
| `PageAlloc.Section.SetupPages` | kernel/mm/page_alloc.c:211-265 | head and tail states of slab and large pages; for used pages all are marked if and only if there is one |
| `PageAlloc.Section.FreeRange` | kernel/mm/page_alloc.c:165-206 | blocks cover the range exactly and total_free grows by it; the exact condition under which max_order stays a bound |
| `PageAlloc.ThreePages` | kernel/mm/page_alloc.c:165-206 | a run: three pages freed into an empty section leave max_order below an order in use |
| `PageAlloc.Section.Carve` | kernel/mm/page_alloc.c:285-311 | lead, large page and rest tile the block: only the large page leaves the free set and total_free falls by exactly it |
| `PageAlloc.Section.TakeWhole` | kernel/mm/page_alloc.c:312-338 | a block of the very order becomes the large page |
| `PageAlloc.Section.GetLarge` | kernel/mm/page_alloc.c:267-341 | fails exactly when the order has no block, or no aligned one of the very order; the large page is aligned, was free, and alone leaves the free set; it is the first aligned block of the very order, or begins in the first block less than its own size in |
| `EarlyAlloc.Early.AddAsc` | kernel/mm/early.c:45-59 | the list by size stays sorted over exactly the areas |
| `EarlyAlloc.Early.Shrink` | kernel/mm/early.c:207-252 | the area keeps so many pages and both lists stay sorted, an empty area leaves both; the result is the place behind the area, or where it was |
| `EarlyAlloc.Early.AddRest` | kernel/mm/early.c:230-238 | a new area put at that place of the list by address leaves both lists sorted over exactly the areas |
| `EarlyAlloc.DroppedFits` | kernel/mm/early.c:214-232 | where an area was deleted from the list by address, its end fits between its neighbours |
| `EarlyAlloc.ShrunkFits` | kernel/mm/early.c:199-232 | behind what is left of an area, its end fits before the next one |
| `EarlyAlloc.Early.AllocPage` | kernel/mm/early.c:126-151 | fails exactly without areas; the page is the last of a smallest area, was free and alone leaves the free set, both lists sorted, the count down by one |
| `EarlyAlloc.Early.AllocLarge` | kernel/mm/early.c:153-256 | the pages are the last aligned ones of an area all smaller than which are unfit, were free and alone leave the free set, the count falls by exactly them; when it fails and when it panics, exactly |
| `EarlyAlloc.UnfitMeans` | kernel/mm/early.c:165-184 | an area is passed over if and only if no aligned run of so many pages lies in it |
| `EarlyAlloc.BoundaryOf` | kernel/mm/early.c:174 | the boundary computed in 32 bits is the pages in bytes, or zero exactly from 2^20 pages on |
| `EarlyAlloc.LargePanics` | kernel/mm/early.c:153-256 | a run: 2^20 pages asked for with an area of 2^20 pages panic |
| `EarlyAlloc.Taken` | kernel/mm/early.c:194-238 | taking pages out of the middle of an area removes exactly them from the free pages |
| `Sections.Table.PhysToPfn` | kernel/mm/section.c:11-22 | the loop finds the page number of the first section that holds the address |
| `Sections.LookupInjective` | kernel/mm/section.c:11-22 | different pages have different numbers |
| `Sections.LookupBack` | kernel/mm/section.c:24-35 | from the number and its section the start of the page is found again |
| `Sections.JoinKeeps` | kernel/boot.c:254-280 | joining two neighbouring sections leaves every address its number |
| `Sections.Table.AssignPfns` | kernel/boot.c:302-311 | ascending ranges get consecutive page numbers from zero |
| `Sections.Table.Merge` | kernel/boot.c:254-280 | no two sections are neighbours any more, and every address keeps its number; the loop meets its bound exactly when there is a section |
| `Sections.Table.SplitAt` | kernel/mm/early.c:658-672 | the section is cut at the boundary and every address keeps its number |
| `Sections.FindBoundary` | kernel/mm/early.c:688-703 | for any section size the halving search with the align-up ends exactly where the zone changes |
| `Sections.Table.SplitForZones` | kernel/mm/early.c:674-705 | ends; every section lies in one zone and every address keeps its number |
| `PageTable.TranslateFrom` | kernel/mm/walker.c:93-148 | the walk down is the translation, as far as it goes |
| `PageTable.OffsetIs` | kernel/mm/walker.c:613-640 | at every level page number times page size plus offset is the address, the offset below the page size |
| `PageTable.Contiguous` | kernel/mm/walker.c:613-640 | inside the page at which a walk ends, large or not, physical addresses move with virtual ones |
| `PageTable.AddrDigits` | kernel/mm/walker.c:602-611 | the address read back from the indices of an address is that address above the level, within the range of the top level |
| `PageTable.Carry` | kernel/mm/walker.c:351-372 | adding one with its carries adds the page size of the level |
| `PageTable.WriteKeeps` | kernel/mm/walker.c:234-251 | a store into an absent entry leaves every way that goes on where it was |
| `TableRefs.FillCounts` | kernel/mm/walker.c:284-291 | filling an absent entry and taking a reference keeps every count the number of present entries |
| `TableRefs.ReadCleared` | kernel/mm/walker.c:584-597 | the clean-up changes exactly the entries that led to the tables it frees |
| `TableRefs.ClearedKept` | kernel/mm/walker.c:224-305 | it changes an entry that was present before exactly when it reaches above the level below which tables were hung |
| `TableRefs.RaisedIn` | lib/refcount.c:15-28 | taking references without a panic leaves every count in the range of the type |
| `TableRefs.ReleasedIn` | lib/refcount.c:30-45 | so does dropping them |
| `TableRefs.CleanUpCounts` | kernel/mm/walker.c:570-600 | after a clean-up from right counts the counts are right again if and only if there was nothing to give up |
| `TableRefs.NeverPanics` | kernel/mm/walker.c:253-305 | with right counts and no table twice on the way up, allocating never panics, refused or not |
| `Walker.PtWalker.constructor` | kernel/mm/walker.c:93-148 | every table is the one the address leads to, the level the lowest one reached |
| `Walker.PtWalker.ResetLower` | kernel/mm/walker.c:181-187 | tables and indices below are cleared, those above untouched |
| `Walker.PtWalker.SetupLower` | kernel/mm/walker.c:189-222 | the walker stands right at the first entries below, as far down as they lead |
| `Walker.PtWalker.Deref` | kernel/mm/walker.c:570-600 | frees exactly the tables from the level up whose last reference is dropped, clears exactly the entries that led to them, drops one reference where it stops, and panics exactly when there is none |
| `Walker.PtWalker.DropLowest` | kernel/mm/walker.c:224-232 | forgets the lowest table and does that from the level above |
| `Walker.PtWalker.AllocDown` | kernel/mm/walker.c:253-305 | success, refusal and panic are exactly as the answers and the counts decide; on success the walker stands right at the level asked for, no present entry is changed and counts stay right; after a refusal an entry present before is lost exactly when `Loses` says so, and exactly the tables given up are freed; after a refusal right counts are right again exactly when nothing was allocated and no table is above |
| `Walker.PtWalker.Next` | kernel/mm/walker.c:307-415 | a successful step moves the address by exactly the page size of the level through any carries; the end is reported exactly when all indices from the level up are at their last; refusal and panic exactly as in allocating; no present entry is changed, except after a refusal exactly when `Loses` says so; right counts are right after a refusal exactly as in allocating; when the walker stands right afterwards, exactly |
| `Walker.PtWalker.NextCarry` | kernel/mm/walker.c:355-415 | the same for a step whose own index ran over |
| `Walker.PtWalker.CarryUp` | kernel/mm/walker.c:359-378 | the carry stops at the lowest level whose index can go up, with the levels below it run over and those above untouched |
| `Walker.PtWalker.GetVirtAddr` | kernel/mm/walker.c:602-611 | the loop adds up the indices from the level up |
| `Walker.PtWalker.VirtGetPhys` | kernel/mm/walker.c:613-640 | for every table memory and page-aligned address the result is the recursive translation with large pages |
| `Walker.StuckStep` | kernel/mm/walker.c:335-343 | a run: a step at level 2 from level 1 onto an absent entry, after which the walker does not stand right |
| `Walker.LostEntry` | kernel/mm/walker.c:224-305 | a run with right counts: the first allocation is refused, a present entry of the root is gone and the counts are wrong |
| `Lists.Empty` | lib/list.h:50-52 | true if and only if the ring has only the head |
| `Lists.AddCommon` | lib/list.h:26-36 | the element stands between its neighbours in the ring |
| `Lists.Add` | lib/list.h:39-42 | the item is the first member, the others in order |
| `Lists.AddBack` | lib/list.h:45-48 | the item is the last member, the others in order |
| `Lists.Remove` | lib/list.h:54-60 | the others in order, the element a ring of its own |
| `Lists.Delete` | lib/list.h:62-68 | the others in order, the element without neighbours |
| `Lists.RingLength` | lib/list.h:12-19 | the links decide the list |
| `Convert.ParseView` | lib/convert.c:217-419 | the code and the value that the text means |
| `Convert.ParseCstr` | lib/convert.c:12-215 | the same code and value on every NUL-free string |
| `Convert.DigitsMean` | lib/convert.c:376-405 | the digit loop gives the positional value of the digits behind what was read before, and an overflow exactly when that does not fit 64 bits |
| `Convert.DigitsThen` | lib/convert.c:376-405 | the digit loop over a run of digits comes to what follows with exactly their value, or an overflow |
| `Convert.ParseMeans` | lib/convert.c:217-419 | a text of digits not starting with zero means their positional value in the base asked for, signed or not, or an overflow exactly when the type does not hold it |
| `Convert.OctalMeans` | lib/convert.c:217-419 | behind a leading zero the digits are octal, signed or not |
| `Convert.PrefixMeans` | lib/convert.c:270-360 | behind each of the eight prefix letters the digits count in the base of the letter, whatever the base asked for; a prefix or base switched off is refused with its own code |
| `Convert.PlusMeans` | lib/convert.c:253-262 | a plus sign before a digit changes nothing, or is refused when not allowed |
| `Convert.SpaceMeans` | lib/convert.c:228-239 | white space in front is skipped when asked for, and else is no digit |
| `Convert.SpacesAre` | lib/ctype.c:233-239 | white space is exactly space, tab, newline, vertical tab, form feed and carriage return |
| `Convert.PartialMeans` | lib/convert.c:376-419 | digits followed by something else mean their value when a part is enough, and else are refused |
| `Convert.DigitIff` | lib/convert.c:376-396 | a character counts for a digit value if and only if it is its figure or one of its two letters |
| `Convert.MinusMeans` | lib/convert.c:408-418 | behind a minus sign a signed parse accepts exactly "-0", an unsigned one nothing |
| `Convert.DigitsOfRender` | lib/convert.c:376-405 | reading the digits of a number gives the number, whatever follows |
| `Convert.Fits` | lib/convert.h:87-93 | 64 bits never need more digits than the buffer is made for |
| `Convert.Print` | lib/convert.c:481-568 | the text stands in the buffer before the NUL and never leaves it |
| `Convert.RoundTrip` | lib/convert.c:481-568 | for every 64-bit number, base, sign, prefix and case, parsing what was printed gives the number |
| `Weekday.TomorrowIsNext` | lib/time.c:39-107 | day numbers count days one by one across months, leap days and years |
| `Weekday.SumCounts` | lib/time.c:452-466 | the sum of the closed form is the day number modulo 7, for every valid date from year 1 on |
| `Weekday.ClosedFormCounts` | lib/time.c:452-466 | the closed form is the counted weekday if and only if its sum fits 64 bits |
| `Weekday.WrongInTheEnd` | lib/time.c:452-466 | 1 March of year 2^64 - 1 gets the wrong weekday |
| `Weekday.ClosedFormSteps` | lib/time.c:452-466 | from one date to the next the weekday moves on by one |

## Left out

- FDT versions below 16, and the downgrade of a version above 17 on editing.
- `fdt_open_into`, `fdt_pack`, `fdt_resize`, `fdt_overlay.c`, `fdt_set_name`, `fdt_appendprop`, phandles, paths and aliases, editing of memory reservations: they would add members of the same kind.
- FdtNav.NextNode: the call without a depth counter is not modelled.
- FdtCheck.CheckHeader: the test that the blob is aligned to 8 bytes in memory is left out.
- FdtCheck.CheckFull: versions 2 to 15 are left out, buffers of 28 to 39 bytes with a version up to 16, and a total size of exactly 2^31 - 1.
- FdtWriter.Writer.Property: for names and values below 2 GiB; after an overrun the model says nothing of the bytes outside the buffer.
- FdtEdit.Editor.NopProperty: for structure blocks of whole words.
- FdtEdit.Editor.NopNode: for structure blocks of whole words.
- FdtWriter.Writer.Create: for buffers below 2^31 - 1 bytes.
- FdtProps.GetString: for finished blobs.
- FdtEdit.Editor.DelProp: for headers whose block sizes do not overflow 32 bits, a version up to 17 and a structure block of whole words, which the library assumes of a checked blob.
- FdtEdit.Editor.DelNode: for the same headers as `DelProp`.
- FdtInsert.AddSubnode: for the same headers as `DelProp`.
- FdtInsert.SetProp: for the same headers as `DelProp`; after a failure with an added string the bytes beyond the blocks may differ; both blocks read the same.
- The reading functions do not repeat the header probe at every call; a readable blob is a precondition.
- `update` and `added_node` callbacks of the AVL tree, its printing, and lookup by key.
- The hole search of the address space and its list of nodes; only the interval comparator is modelled.
- Intervals.InsertRange: for non-empty ranges; with empty ones the order is not determined.
- Slab: the locks, the tail pages and their allocator field; a pointer is a head page and a byte offset. The byte order of the stored index is the machine's and does not matter.
- Slab.Allocator.constructor: for sizes from 1 to 0xFFFFFFF0; outside the source divides by zero or stores a size of zero.
- The slab, page and early lists are sequences in those modules; the pointer ring under them is proved in `Lists.dfy`.
- Memory ordering: every atomic operation is one sequentially consistent step.
- The loop over the sections and zones of a request, `zone->total_free`, and `free_pages` with its coalescing.
- PageAlloc.Section.FreeRange: for at least one page, as every caller has; with none the source indexes its lists with -1. Addresses are counted in pages, and the align-up of a block inside 64 bits does not overflow.
- PageAlloc.Section.GetLarge: says nothing of `max_order` afterwards, which `FreeRange` decides.
- `total_page_count` of an early area and `claim_pages`; pages are not zeroed in the model.
- EarlyAlloc.Early.AllocLarge: for amounts that are powers of two.
- The trimming of overlapping memory maps in `boot_init`, the section mask, and the zone labels of split sections.
- Sections.Table.Merge: with no section the model stops where the source goes on past the table.
- Walker.PtWalker.AllocDown: what the callbacks do beyond giving and taking tables; after a panic nothing is stated.
- Walker.PtWalker.Next: the store of zero behind the top level's index when the end is reached; every level has 512 entries, which the fifth level of one architecture has not.
- Walker.PtWalker.GetVirtAddr: plus for or, on bits that do not overlap.
- Convert.Print: for the same bases and prefixes as `RoundTrip`.
- Convert.RoundTrip: bases 2, 8, 10 and 16; base 36 output, a decimal prefix and the octal prefix `0` are not modelled, nor is signed output.
- Convert.ParseView: where parsing stopped is not returned.
- Convert.ParseCstr: where parsing stopped is not returned.
