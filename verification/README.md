# Flattened device trees: libfdt and dtc

A model, with proofs, of the device tree code of dtc 1.6.1: the library libfdt, which reads and edits
flattened device trees inside one buffer, and the middle and back end of the compiler dtc, which builds,
merges, checks and flattens them.  The format is that of chapter 5 of the Devicetree Specification.

**Blobs.**  A buffer is a `seq<byte>`.  Each libfdt operation is a function on it with the branches, the
32-bit arithmetic and the error codes of the C function, and a method on an `array<byte>` with the loops,
moves and stores of the C function, proved to compute it.  All code is modelled with every check enabled
(`can_assume` false).  `Holds(b, t)` says that the structure block of `b` is the item list `t` (nodes,
properties and FDT_NOPs, each with its exact bytes) followed by FDT_END, with all names in the strings
block; `Trees(b, t)` are the trees it denotes.  A node is addressed by its path `p` of child indices
(`Addresses`); `Becomes(b, b', t, p, ts)` says that `b'` holds the trees of `b` with the node at `p`
replaced by `ts`, and has kept reservation block, capacity and layout (`Kept`).  `Untouched` allows
changes only in unused bytes.

**Trees.**  Overlays, the compiler's live tree, fixups and phandle allocation are modelled on trees;
values with markers, the check table, the nodes with their phandles, the emitter and the reader are classes.

**Modules.**  `Bytes`, `Syntax`, `DeviceTree` give bytes, tokens, items and trees.  `Fdt`, `Walk`, `Blob`,
`Lookup`, `Visit`, `Paths`, `TreePaths`, `Check`, `Ending` read.  `Splice`, `Edit`, `Refine`, `RefineNodes`,
`EditTheorems`, `EditRuns`, `Wip`, `Pack`, `OpenInto` edit.  `Memory`, `Reader`, `InPlace`, `Walkers`,
`Sessions`, `SeqInPlace`, `FlatInPlace` are the same operations in place.  `Stream`, `SeqWrite`,
`SeqFinish`, `SeqRuns` are the sequential writer.  `Overlay`, `OverlayRefs`, `OverlayApply`,
`OverlayKeeps`, `SymbolicFixups`, `OverlayDistinct`, `OverlayImages`, `OverlayLands`,
`OverlaySucceeds`, `OverlayClash`, `OverlayBlob`, `OverlayRoom`, `LocalFixups`, `Linking`, `Fixups`,
`LabelFixups`, `LabelLinking` are overlays.
`FlatTree`, `FlatBlob`, `FlatOld`, `FlatVersions`, `LiveTree`, `Data`, `LivePhandles`, `LiveReferences`,
`LiveChecks`, `LiveInPlace`, `LivePaths`, `Checks`, `Literal` are the compiler.

Some definitions are sealed: their equation is known only to a proof that asks for it by calling the
lemma named after it (`HoldsDef`, `LdDef`, ...).  All inductions are written out.

## Where the code does not do what it is for

- fdt_next_tag does not move past a property whose stored length is 0xfffffff4, because 12 plus that
  length is 0 in 32 bits (`Fdt.NextTagAdvances`, `Ending.SomeBufferDiverges`).  From version 16 on each
  loop over tags, nodes or properties runs forever iff it gets to such a property before it stops
  (`Ending.NextNodeDiverges`, `Ending.LookupsDiverge`, `Ending.AncestorsDiverge`); a search for a property
  stops there if the name matches (`Ending.PropertyDiverges`).
- fdt_setprop_inplace_namelen_partial adds index and length in 32 bits, so a large index passes the
  length test (`Wip.SetPropPartialStrays`); the exact condition is `Wip.SetPropPartialRefines`.
- fdt_nop_property rounds the length up to words, and nothing checks that the alignment bytes are in the
  buffer (`Wip.NopPropertyStrays`, `Ending.SomeNopStrays`); the exact condition is `Wip.NopPropertyStays`.
- fdt_add_string_ subtracts a too long name from totalsize in 32 bits and then finds room
  (`SeqRuns.LongNameStrays`); the exact condition is `SeqWrite.AddStringExact`.
- A node without unit address is taken for an earlier sibling of that base name, so the loader applies
  its local fixups to the wrong node (`Linking.TrapFails`); the exact condition is
  `LocalFixups.GeneratedFixups`.  For paths in symbolic fixups, symbols and targets it is
  `TreePaths.FindPathWhen`.
- An overlay with a node that sets its phandle to its own, which the compiler allows, is refused by the
  loader as soon as the base has a phandle: the renumbering takes the list of offsets in __local_fixups__,
  which is the value of a property named "phandle", for a phandle and moves it (`Linking.SelfFails`); the
  exact condition is `Linking.LocalUpdateExact`.  For the same reason no local fixup ever changes a
  phandle (`OverlayKeeps.LocalKeepsPhandles`).
- A symbolic fixup that writes into the phandle of a merged node makes two phandles equal, always
  (`OverlayClash.PhandlesClash`); `OverlayDistinct.DistinctExact` is the exact condition.
- dt_from_blob copies outside its buffer for a stored length of 2^31 or more (`FlatBlob.ReadPropStrays`).
- Version 1 blobs lose the boot CPU, and an entry of size 0 ends the reservation list early
  (`FlatVersions.CompileRoundTrip`, `FlatVersions.UpToZeroIs`).
- A string literal with a NUL before an octal digit is not read back as it was (`Literal.LiteralRoundTrip`,
  an iff).

## Model

| member | source | states |
|---|---|---|
| Bytes.WordIs | dtc-1.6.1/libfdt/libfdt.h:134-142 | Four bytes are one number, the first byte counting most, and storing the number gives these bytes. |
| Fdt.OffsetPtrMeans | dtc-1.6.1/libfdt/fdt.c:143-163 | The wrap tests of fdt_offset_ptr are exact: a range is accepted iff it lies in the blob and, from version 17 on, in the structure block. |
| Fdt.NextTagIs | dtc-1.6.1/libfdt/fdt.c:165-217 | On every well-formed token fdt_next_tag returns its tag and the offset behind it, alignment bytes included. |
| Fdt.NextTagAdvances | dtc-1.6.1/libfdt/fdt.c:165-217 | fdt_next_tag fails with TRUNCATED or BADSTRUCTURE, or moves to a 4-aligned offset further on; it stays where it is iff a property with stored length 0xfffffff4 stands there. |
| Ending.NextNodeDiverges | dtc-1.6.1/libfdt/fdt.c:243-281 | fdt_next_node never ends iff its loop gets to a property with stored length 0xfffffff4 before it stops, on every buffer. |
| Ending.NextPropEnds | dtc-1.6.1/libfdt/fdt_ro.c:201-223 | nextprop_ always ends. |
| Ending.PropertyDiverges | dtc-1.6.1/libfdt/fdt_ro.c:394-422 | The search for a property never ends iff it gets to such a property, and that one has another name. |
| Ending.LookupsDiverge | dtc-1.6.1/libfdt/fdt.c:283-309 | The lookups in a node, the search for its end, and first and next subnode never end iff they get to a call of fdt_next_node, or to a property, that does not, before they stop. |
| Ending.AncestorsDiverge | dtc-1.6.1/libfdt/fdt_ro.c:542-652 | fdt_supernode_atdepth_offset, fdt_parent_offset and fdt_get_path never end iff such a call comes before the node they look for. |
| Ending.PathDiverges | dtc-1.6.1/libfdt/fdt_ro.c:250-293 | fdt_path_offset never ends iff the lookup of a component that it gets to does not. |
| Ending.SkipPropsDiverges | dtc-1.6.1/libfdt/fdt_rw.c:333-375 | The property loop of fdt_add_subnode_namelen never ends iff it gets to such a property. |
| Ending.WalkSizeDiverges | dtc-1.6.1/libfdt/fdt_rw.c:431-441 | The walk of fdt_open_into never ends iff such a property comes before FDT_END. |
| Ending.AllEnd | dtc-1.6.1/libfdt/fdt.c:165-309 | Without such a property everything ends. |
| Ending.SomeBufferDiverges | dtc-1.6.1/libfdt/fdt.c:189-198 | There is a version 17 buffer on which fdt_next_node never ends. |
| Blob.HoldsUnique | dtc-1.6.1/libfdt/fdt.c:165-217 | A blob holds at most one list of items, so the trees it holds depend on its bytes alone. |
| Blob.RwProbeSane | dtc-1.6.1/libfdt/fdt_rw.c:25-40 | The read-write probe accepts a version 17 blob iff its blocks lie in bounds in the order reservations, structure, strings. |
| Lookup.GetStringIs | dtc-1.6.1/libfdt/fdt_ro.c:34-98 | fdt_get_string returns the NUL-terminated string at that offset of the strings block, or fails if there is none. |
| Lookup.GetPropertyIs | dtc-1.6.1/libfdt/fdt_ro.c:394-422 | The property lookup returns the offset of the first property of that name of exactly that node, or NOTFOUND. |
| Lookup.SubnodeOffsetIs | dtc-1.6.1/libfdt/fdt_ro.c:225-242 | fdt_subnode_offset returns the first child that matches, unit addresses included, or NOTFOUND; it never leaves the node. |
| Lookup.NodeNameIs | dtc-1.6.1/libfdt/fdt_ro.c:13-32 | A node name matches a name iff it is that name, or the name has no unit address and the node name goes on with '@'. |
| OverlayBlob.SubnodeNamed | dtc-1.6.1/libfdt/fdt_ro.c:225-242 | fdt_subnode_offset, by the names of the children: the offset of the first that is called so, or NOTFOUND iff none is. |
| Lookup.GetNameIs | dtc-1.6.1/libfdt/fdt_ro.c:300-336 | fdt_get_name returns the name of the node at that offset. |
| Walk.NodeEndIs | dtc-1.6.1/libfdt/fdt_wip.c:73-81 | fdt_node_end_offset_ returns the offset just behind the node with all below it. |
| Visit.VisitsSubtree | dtc-1.6.1/libfdt/fdt.c:243-281 | fdt_next_node, iterated from a node with a depth counter from 0, visits the node and exactly its descendants, in preorder, each with its true depth. |
| Visit.FirstSubnodeIs | dtc-1.6.1/libfdt/fdt.c:283-292 | fdt_first_subnode returns the first child, or NOTFOUND if there is none. |
| Visit.NextSubnodeIs | dtc-1.6.1/libfdt/fdt.c:294-309 | fdt_next_subnode returns the next sibling, or NOTFOUND behind the last one. |
| Visit.SupernodeIs | dtc-1.6.1/libfdt/fdt_ro.c:594-630 | fdt_supernode_atdepth_offset returns the ancestor at that depth, or NOTFOUND if the node is not that deep. |
| Visit.DepthDecides | dtc-1.6.1/libfdt/fdt_ro.c:594-630 | The supernode loop answers NOTFOUND iff it gets to the node and the level asked for is below the depth it stores. |
| Visit.ParentIs | dtc-1.6.1/libfdt/fdt_ro.c:632-652 | fdt_node_depth returns the depth of every node below the root, and fdt_parent_offset its parent, or NOTFOUND for the root. |
| Sessions.RootFound | dtc-1.6.1/libfdt/fdt.c:243-281 | From -1, fdt_next_node returns the first node at the top level, or NOTFOUND. |
| Sessions.ChildrenFound | dtc-1.6.1/libfdt/fdt.c:283-309 | On any blob that holds trees, first and next subnode list the children of the node at a path, one after the other and no others. |
| Paths.PathOffsetIs | dtc-1.6.1/libfdt/fdt_ro.c:250-293 | fdt_path_offset on the path of a node returns that node, whenever each name on the way is found first. |
| Paths.GetPathIs | dtc-1.6.1/libfdt/fdt_ro.c:542-592 | fdt_get_path succeeds iff the buffer has two bytes and room for the path and its NUL, and then writes the names from the root down. |
| Paths.PathRoundTrip | dtc-1.6.1/libfdt/fdt_ro.c:542-592 | The path that fdt_get_path writes leads fdt_path_offset back to the same node; it fails, with NOSPACE, iff the path does not fit. |
| TreePaths.PathInTree | dtc-1.6.1/libfdt/fdt_ro.c:250-293 | On every blob and every absolute path fdt_path_offset finds the node that the lookup in the tree finds, or none. |
| TreePaths.FindPathIs | dtc-1.6.1/libfdt/fdt_ro.c:250-293 | The path of a node leads to it, if each name on the way is found first. |
| TreePaths.FindPathWhen | dtc-1.6.1/libfdt/fdt_ro.c:250-293 | With names that are not empty and free of slashes, the path of a node leads to it iff no earlier sibling, of it or of a node above it, is called as it is. |
| TreePaths.FindPathExact | dtc-1.6.1/libfdt/fdt_ro.c:250-293 | Any absolute path leads to a node iff its words, split at one or more slashes, pick the children on the way: each the first that is called so. |
| TreePaths.PhandleFinds | dtc-1.6.1/libfdt/fdt_ro.c:681-704 | If phandles are distinct the lookup by phandle finds the node that has it. |
| TreePaths.WithPhandleExact | dtc-1.6.1/libfdt/fdt_ro.c:681-704 | The lookup by phandle finds the first node that has it, in preorder, and nothing iff none has it. |
| SeqFinish.SaneChecks | dtc-1.6.1/libfdt/fdt.c:89-141 | Every sane blob passes fdt_check_header. |
| Check.CheckHeaderMeans | dtc-1.6.1/libfdt/fdt.c:89-141 | fdt_check_header returns 0 iff all three blocks are in bounds; its overflow tests are exact. |
| Check.CheckFullExact | dtc-1.6.1/libfdt/fdt_check.c:13-93 | fdt_check_full returns 0 iff the header is in bounds, the reservation map ends, and the structure block decodes to at most one tree with empty root name, resolvable property names and FDT_END right behind it. |
| Check.AcceptedHolds | dtc-1.6.1/libfdt/fdt_check.c:13-93 | What fdt_check_full accepts holds trees in the sense of all other results, if blocks are in order, properties precede subnodes and nothing follows FDT_END. |
| Splice.SpliceStructIs | dtc-1.6.1/libfdt/fdt_rw.c:83-95 | A structure splice succeeds iff there is room; it replaces exactly the given range and keeps the strings; else nothing changes. |
| Splice.SpliceStringIs | dtc-1.6.1/libfdt/fdt_rw.c:105-116 | Growing the strings block succeeds iff there is room, and keeps structure and old strings. |
| Refine.FindAddStringIs | dtc-1.6.1/libfdt/fdt_rw.c:127-153 | The returned offset is the first that names the string; a new string is added iff none does; without room nothing changes. |
| Refine.RollBack | dtc-1.6.1/libfdt/fdt_rw.c:98-103 | Dropping the string added last restores header and blocks. |
| EditTheorems.SetPropRefines | dtc-1.6.1/libfdt/fdt_rw.c:276-289 | fdt_setprop sets the property of exactly that node, a new one coming first, and nothing else in any tree; it fails iff the exact room is missing, with NOSPACE, and then header, structure and strings are as before, a string added on the way included. |
| EditTheorems.DelPropRefines | dtc-1.6.1/libfdt/fdt_rw.c:318-331 | fdt_delprop removes the first property of that name from exactly that node; without one it reports NOTFOUND and changes no byte. |
| EditTheorems.AddSubnodeRefines | dtc-1.6.1/libfdt/fdt_rw.c:333-375 | fdt_add_subnode puts an empty first child into exactly that node and returns its offset; EXISTS iff a child is called so, with or without unit address, NOSPACE iff there is no room, and then no byte changes. |
| EditTheorems.DelNodeRefines | dtc-1.6.1/libfdt/fdt_rw.c:382-394 | fdt_del_node succeeds and removes exactly that node with all below it. |
| EditTheorems.SetNameRefines | dtc-1.6.1/libfdt/fdt_rw.c:235-256 | fdt_set_name renames exactly that node; NOSPACE iff the longer name does not fit, and then no byte changes. |
| EditRuns.PerformRefines | dtc-1.6.1/libfdt/fdt_rw.c:235-394 | Any of the five calls, at any path, updates the trees as described if it succeeds and leaves them if it fails; reservation block, capacity and layout stay. |
| EditRuns.SessionRefines | dtc-1.6.1/libfdt/fdt_rw.c:54-394 | After every sequence of edit calls, failed ones included, the blob holds exactly the trees that the successful ones describe. |
| EditRuns.SessionExists | dtc-1.6.1/libfdt/fdt_rw.c:54-394 | Every sequence of calls is such a session: no call leaves a blob that the next one rejects. |
| Wip.NopPropertyRefines | dtc-1.6.1/libfdt/fdt_wip.c:59-71 | fdt_nop_property takes exactly that property out of the tree and changes no byte outside it. |
| Wip.NopNodeRefines | dtc-1.6.1/libfdt/fdt_wip.c:83-94 | fdt_nop_node takes exactly that node out of the tree and changes no byte outside it. |
| Wip.NopAgreesWithDelete | dtc-1.6.1/libfdt/fdt_wip.c:51-94 | Overwriting with FDT_NOP and deleting leave the same trees and return the same codes, for properties and for nodes. |
| Wip.NopPropertyStays | dtc-1.6.1/libfdt/fdt_wip.c:51-71 | On every buffer in which the property is found, fdt_nop_property writes inside the buffer iff the stored length is at least 0xfffffff4 or the buffer has the alignment bytes of the value. |
| Wip.NopPropertyStrays | dtc-1.6.1/libfdt/fdt_wip.c:51-71 | A last value of one byte without alignment bytes: the words written go three bytes past the buffer. |
| Ending.SomeNopStrays | dtc-1.6.1/libfdt/fdt_wip.c:51-71 | There is a version 17 buffer on which that happens. |
| Wip.SetPropPartialRefines | dtc-1.6.1/libfdt/fdt_wip.c:13-31 | fdt_setprop_inplace_namelen_partial patches the value or reports NOSPACE iff index plus length does not wrap in 32 bits, or the wrapped sum still exceeds the value's length; in all other cases it writes outside the buffer. |
| Wip.SetPropPartialEval | dtc-1.6.1/libfdt/fdt_wip.c:13-31 | The same on any buffer, whatever tree it holds: which of the three happens is decided by index, length and stored length. |
| Wip.SetPropPartialStrays | dtc-1.6.1/libfdt/fdt_wip.c:26-29 | Index 0xffffffff and one byte: the sum is 0, the test passes, and the byte goes outside the buffer. |
| Pack.NumRsvInside | dtc-1.6.1/libfdt/fdt_ro.c:189-199 | fdt_num_mem_rsv counts an end inside the reservation block iff there is one. |
| Pack.PackKeeps | dtc-1.6.1/libfdt/fdt_rw.c:487-500 | fdt_pack keeps entries, structure and strings byte for byte although it moves them inside one buffer, sets totalsize to their exact sum and keeps the trees. |
| Pack.PackIdempotent | dtc-1.6.1/libfdt/fdt_rw.c:487-500 | fdt_pack is idempotent. |
| OpenInto.WalkSizeIs | dtc-1.6.1/libfdt/fdt_rw.c:431-441 | For version 16 the walk to FDT_END finds the size of the structure block. |
| OpenInto.OpenKeeps | dtc-1.6.1/libfdt/fdt_rw.c:419-485 | fdt_open_into, for any order of the blocks and any overlap of the buffers, leaves the same three blocks byte for byte in a sane version 17 blob, or reports NOSPACE; it does so exactly if the stated room is there. |
| OpenInto.OpenHolds | dtc-1.6.1/libfdt/fdt_rw.c:419-485 | The opened buffer holds the trees of the structure block that was copied, so all results on edits apply to it. |
| Memory.ReadTag | dtc-1.6.1/libfdt/fdt.c:165-217 | The tag reader on an array computes the modelled fdt_next_tag. |
| Reader.StepNode | dtc-1.6.1/libfdt/fdt.c:243-281 | The loop of fdt_next_node computes its recursive form. |
| Reader.NodeEnd | dtc-1.6.1/libfdt/fdt_wip.c:73-81 | The loop of fdt_node_end_offset_ computes its recursive form. |
| Reader.ReadString | dtc-1.6.1/libfdt/fdt_ro.c:34-98 | fdt_get_string on an array. |
| Reader.FindProperty | dtc-1.6.1/libfdt/fdt_ro.c:394-422 | The loop of the property lookup computes its recursive form. |
| Reader.FindSubnode | dtc-1.6.1/libfdt/fdt_ro.c:225-242 | The loop of the subnode lookup computes its recursive form. |
| Reader.SearchString | dtc-1.6.1/libfdt/fdt.c:311-321 | fdt_find_string_ returns the first occurrence in the table, suffixes of other strings included. |
| InPlace.SpliceStructure | dtc-1.6.1/libfdt/fdt_rw.c:83-95 | fdt_splice_struct_ with its memmove and header updates. |
| InPlace.SetProperty | dtc-1.6.1/libfdt/fdt_rw.c:276-289 | fdt_setprop changes the array exactly as the function that SetPropRefines is about. |
| InPlace.DeleteProperty | dtc-1.6.1/libfdt/fdt_rw.c:318-331 | fdt_delprop in place, as DelPropRefines has it. |
| InPlace.AddNode | dtc-1.6.1/libfdt/fdt_rw.c:333-375 | fdt_add_subnode in place, as AddSubnodeRefines has it. |
| InPlace.DeleteNode | dtc-1.6.1/libfdt/fdt_rw.c:382-394 | fdt_del_node in place, as DelNodeRefines has it. |
| InPlace.RenameNode | dtc-1.6.1/libfdt/fdt_rw.c:235-256 | fdt_set_name in place, as SetNameRefines has it. |
| InPlace.NopWords | dtc-1.6.1/libfdt/fdt_wip.c:51-57 | The loop of fdt_nop_region_ writes FDT_NOP words up to the end of the region and nothing else. |
| InPlace.NopProp | dtc-1.6.1/libfdt/fdt_wip.c:59-71 | fdt_nop_property in place, as NopPropertyRefines and NopPropertyStays have it. |
| InPlace.NopSubtree | dtc-1.6.1/libfdt/fdt_wip.c:83-94 | fdt_nop_node in place, as NopNodeRefines has it. |
| Walkers.FirstChild | dtc-1.6.1/libfdt/fdt.c:283-292 | fdt_first_subnode on an array. |
| Walkers.NextChild | dtc-1.6.1/libfdt/fdt.c:294-309 | The loop of fdt_next_subnode computes its recursive form. |
| Walkers.FindSupernode | dtc-1.6.1/libfdt/fdt_ro.c:594-630 | The loop of fdt_supernode_atdepth_offset computes its recursive form. |
| Walkers.FindDepth | dtc-1.6.1/libfdt/fdt_ro.c:632-642 | fdt_node_depth on an array. |
| Walkers.FindParent | dtc-1.6.1/libfdt/fdt_ro.c:644-652 | fdt_parent_offset on an array. |
| Walkers.CountReserved | dtc-1.6.1/libfdt/fdt_ro.c:189-199 | The loop of fdt_num_mem_rsv computes its recursive form. |
| Walkers.CheckTags | dtc-1.6.1/libfdt/fdt_check.c:50-93 | The loop of fdt_check_full computes the form that CheckFullExact is about. |
| Walkers.ResolvePath | dtc-1.6.1/libfdt/fdt_ro.c:250-293 | The loop of fdt_path_offset computes its recursive form. |
| Walkers.WritePath | dtc-1.6.1/libfdt/fdt_ro.c:542-592 | The two loops of fdt_get_path compute the form that GetPathIs is about. |
| Walkers.PackBlocks | dtc-1.6.1/libfdt/fdt_rw.c:396-417 | fdt_packblocks_ within one array, overlapping moves included. |
| Sessions.Locate | dtc-1.6.1/libfdt/fdt.c:243-309 | Walking child by child from fdt_next_node finds the node at a path, or fails iff there is none. |
| Sessions.RunCalls | dtc-1.6.1/libfdt/fdt_rw.c:54-394 | A whole session on one array: whatever calls fail, it ends with the array holding exactly the updated trees, entries, capacity and layout kept. |
| Stream.Describe | dtc-1.6.1/libfdt/fdt_sw.c:219-248 | Every balanced sequence of begin, end and property calls is the traversal of a tree description. |
| Stream.BalancedMeans | dtc-1.6.1/libfdt/fdt_sw.c:219-248 | A sequence of calls is balanced iff it describes something. |
| Stream.BuildDenotes | dtc-1.6.1/libfdt/fdt_sw.c:219-335 | The tokens written denote exactly the properties and trees described. |
| SeqWrite.RoomTestExact | dtc-1.6.1/libfdt/fdt_sw.c:250-265 | The test for room for a string is right iff strings and new name alone fit in the buffer; beyond that the subtraction wraps and the test accepts. |
| SeqWrite.AddStringExact | dtc-1.6.1/libfdt/fdt_sw.c:250-265 | fdt_add_string_ writes in front of the buffer iff strings and name alone are larger than the buffer. |
| SeqRuns.LongNameStrays | dtc-1.6.1/libfdt/fdt_sw.c:250-265 | A writer of 64 bytes and a name of 64 bytes for which it does. |
| SeqWrite.EmitIs | dtc-1.6.1/libfdt/fdt_sw.c:94-107 | fdt_grab_space_ succeeds iff the gap between structure and strings is large enough, and writes only there. |
| SeqWrite.StringDropped | dtc-1.6.1/libfdt/fdt_sw.c:267-274 | The roll-back of a string restores header and blocks. |
| SeqRuns.CreateIs | dtc-1.6.1/libfdt/fdt_sw.c:109-141 | fdt_create_with_flags accepts exactly buffers of 48 bytes on and known flags, and leaves an empty writer. |
| SeqRuns.PhaseSeen | dtc-1.6.1/libfdt/fdt_sw.c:13-74 | The probes recover from the header exactly the phase the writer is in, and the three areas always fit in totalsize. |
| SeqRuns.TransferSafe | dtc-1.6.1/libfdt/fdt_sw.c:168-181 | However old and new buffer overlap, the chosen order of the two moves delivers head and tail unchanged. |
| SeqRuns.ResizeIs | dtc-1.6.1/libfdt/fdt_sw.c:148-186 | fdt_resize succeeds iff the contents fit, and the new buffer then has the same entries, structure and strings at the same negative offsets; else nothing changes. |
| SeqRuns.WritePropIs | dtc-1.6.1/libfdt/fdt_sw.c:293-335 | fdt_property succeeds iff property and, if new, name fit; else NOSPACE and the name is rolled back. |
| SeqRuns.SwStep | dtc-1.6.1/libfdt/fdt_sw.c:188-384 | Every call succeeds exactly in its phase and with room, and then advances the state as described; else it reports BADSTATE or NOSPACE and keeps the state. |
| SeqRuns.SwRunKeeps | dtc-1.6.1/libfdt/fdt_sw.c:109-384 | After every run, with any mix of failures and resizes, the buffer is in the state of the successful calls. |
| SeqFinish.RelocateAll | dtc-1.6.1/libfdt/fdt_sw.c:356-370 | The last pass corrects every name offset exactly once and nothing else. |
| SeqFinish.FinishIs | dtc-1.6.1/libfdt/fdt_sw.c:337-384 | fdt_finish succeeds iff there is room for FDT_END, and completes the blob. |
| SeqFinish.CompleteHolds | dtc-1.6.1/libfdt/fdt_sw.c:337-384 | A finished blob passes fdt_check_header and holds exactly the trees described. |
| SeqRuns.WriterRefines | dtc-1.6.1/libfdt/fdt_sw.c:109-384 | From fdt_create to fdt_finish over every run whose successful calls are balanced: the blob passes fdt_check_header, has exactly the entries added and holds exactly the trees described, whatever the buffer sizes were. |
| SeqInPlace.CreateBlob | dtc-1.6.1/libfdt/fdt_sw.c:109-141 | fdt_create_with_flags in place. |
| SeqInPlace.PropertyCall | dtc-1.6.1/libfdt/fdt_sw.c:325-335 | fdt_property in place, with roll-back. |
| SeqInPlace.CorrectNames | dtc-1.6.1/libfdt/fdt_sw.c:356-370 | The relocation loop in place. |
| SeqInPlace.FinishCall | dtc-1.6.1/libfdt/fdt_sw.c:337-384 | fdt_finish in place. |
| SeqInPlace.ResizeCall | dtc-1.6.1/libfdt/fdt_sw.c:148-186 | fdt_resize between two ranges of one array. |
| Overlay.ShiftRaises | dtc-1.6.1/libfdt/fdt_overlay.c:116-177 | Renumbering raises every phandle of the overlay by the given amount, and changes no other. |
| OverlayRefs.BumpExact | dtc-1.6.1/libfdt/fdt_overlay.c:247-284 | The loop over the listed offsets succeeds iff all cells lie in the value, and goes outside only at an offset of 0xfffffffc or more. |
| OverlayRefs.BumpListed | dtc-1.6.1/libfdt/fdt_overlay.c:247-284 | Every cell listed in a fixup property is raised once, modulo 2^32. |
| OverlayRefs.BumpElsewhere | dtc-1.6.1/libfdt/fdt_overlay.c:247-284 | No byte outside the listed cells changes. |
| OverlayRefs.UpdateAt | dtc-1.6.1/libfdt/fdt_overlay.c:220-306 | Every node's properties are changed exactly as its own fixup node says. |
| OverlayKeeps.LocalKeepsPhandles | dtc-1.6.1/libfdt/fdt_overlay.c:325-343 | On every overlay, if overlay_update_local_references succeeds, every node has the phandle that the renumbering gave it: a phandle property listed in __local_fixups__ makes it fail, since the renumbering has changed the list. |
| OverlayKeeps.LocalReferenceKept | dtc-1.6.1/libfdt/fdt_overlay.c:193-343 | A cell listed in __local_fixups__ that held the phandle of an overlay node holds that node's new phandle after both steps, if they succeed. |
| LocalFixups.GenerateIs | dtc-1.6.1/livetree.c:951-1008 | The walk from the root for every marker, creating nodes as needed, yields exactly the mirror image: the nodes with resolved references in or below them, each with the offsets of its own. |
| LocalFixups.RaisedCell | dtc-1.6.1/libfdt/fdt_overlay.c:247-284 | Each cell with a resolved reference is raised exactly once, modulo 2^32. |
| LocalFixups.RaisedElsewhere | dtc-1.6.1/libfdt/fdt_overlay.c:247-284 | All other bytes of the value stay. |
| LocalFixups.GeneratedFixups | dtc-1.6.1/libfdt/fdt_overlay.c:220-306 | With the generated fixups the loader raises exactly the cells with a resolved reference, if no node with fixups has the base name of an earlier sibling, and, if there is anything to add, only then. |
| Linking.TrapFails | dtc-1.6.1/libfdt/fdt_overlay.c:286-303 | With a node `a@` in front of a node `a` that has a reference, the loader misses the reference, for every phandle offset but 0. |
| Linking.LocalUpdateExact | dtc-1.6.1/libfdt/fdt_overlay.c:325-343 | The local update of a compiled overlay succeeds iff no resolved reference stands in a phandle property, or the base has no phandles. |
| Linking.LocalUpdateIs | dtc-1.6.1/libfdt/fdt_overlay.c:325-343 | When it succeeds it has raised exactly the cells with a resolved reference, and the phandles. |
| Linking.SelfFails | dtc-1.6.1/libfdt/fdt_overlay.c:156-177 | An overlay with `phandle = <&n>` in the node n, compiled and applied to a base with a phandle: it is renumbered and then refused. |
| Linking.ReferenceKept | dtc-1.6.1/libfdt/fdt_overlay.c:193-343 | Compiler and loader together: a reference cell that holds the phandle of an overlay node when compiled holds that node's new phandle after loading, or the overlay is refused, with the exact condition. |
| Fixups.FixupsRoundTrip | dtc-1.6.1/livetree.c:886-904 | Parsing the list of path, property and offset that the compiler emits returns exactly the entries, in order. |
| Fixups.EntryMeans | dtc-1.6.1/libfdt/fdt_overlay.c:448-481 | An entry is parsed iff it is a path, a property name that is not empty, and a number, with a colon after each of the first two, in which there is none. |
| Fixups.NumberMeans | dtc-1.6.1/libfdt/fdt_overlay.c:479-481 | The number is what strtoul reads: blanks, a sign, and decimal digits, negated modulo 2^64 behind a minus sign, and 2^64 - 1 if too large. |
| Fixups.NumberParts | dtc-1.6.1/libfdt/fdt_overlay.c:479-481 | Nothing else is accepted. |
| OverlayApply.SymbolIs | dtc-1.6.1/libfdt/fdt_overlay.c:368-400 | A label stands for a phandle iff the property of that name in /__symbols__ of the base holds the path of a node that has it. |
| OverlayApply.FixEntryIs | dtc-1.6.1/libfdt/fdt_overlay.c:368-407 | A symbolic fixup makes its cell hold the phandle of the node of the base whose path the symbol holds. |
| SymbolicFixups.PropsFixed | dtc-1.6.1/libfdt/fdt_overlay.c:428-536 | A successful run over /__fixups__ has parsed all of it and applied every entry in turn. |
| SymbolicFixups.FixupsHold | dtc-1.6.1/libfdt/fdt_overlay.c:428-536 | In the end every cell listed holds the phandle that its label stands for, unless a later entry overwrites it, and every cell that no entry touches is as it was. |
| SymbolicFixups.AllFixed | dtc-1.6.1/libfdt/fdt_overlay.c:510-536 | A node keeps its phandle unless an entry writes into the property that gives it; then it has a phandle of the base. |
| OverlayApply.TargetIs | dtc-1.6.1/libfdt/fdt_overlay.c:28-95 | The target of a fragment is the node at a path iff 'target' is its phandle and it is the first to have it, or 'target' is missing or 0 and 'target-path' is its path. |
| OverlayApply.TargetByPhandle | dtc-1.6.1/libfdt/fdt_overlay.c:58-95 | With distinct phandles the target is the one node that has the phandle. |
| OverlaySucceeds.ApplyExact | dtc-1.6.1/libfdt/fdt_overlay.c:830-882 | fdt_overlay_apply, step by step, succeeds iff: every phandle property of the overlay is one cell that stays below 2^32 - 1 when raised by the largest phandle of the base; all cells that the local fixups list are there; the symbolic fixups can be parsed, their labels stand for phandles of the base and their cells are there; and every fragment has a target in the base as it is by then. |
| OverlayLands.OverlayLands | dtc-1.6.1/libfdt/fdt_overlay.c:557-649 | After fdt_overlay_apply each node of each fragment has a node that it was applied to, the target of the fragment for the top one, and that node is called so and holds what the overlay node says, unless something later says otherwise. |
| OverlayLands.ChildLands | dtc-1.6.1/libfdt/fdt_overlay.c:557-649 | What a child in the overlay is applied to is a child of what its parent is applied to. |
| OverlayLands.LabelReferenceHolds | dtc-1.6.1/libfdt/fdt_overlay.c:830-882 | References by label, end to end: the cell in the merged tree holds the phandle that the node of that label in the base still has. |
| LabelFixups.CollectedRead | dtc-1.6.1/livetree.c:886-930 | The compiler groups the references that mean no node by label; the loader reads from these properties exactly the entries added, each as often. |
| LabelLinking.LabelsResolved | dtc-1.6.1/livetree.c:906-930 | Compiler and loader together: the loader's fixups succeed iff every label left by the compiler stands for a phandle of the base, and then every cell with a reference to such a label holds that phandle. |
| Overlay.MergePhandles | dtc-1.6.1/libfdt/fdt_overlay.c:557-602 | Merging invents no phandle. |
| Overlay.MaxIsReached | dtc-1.6.1/libfdt/fdt_ro.c:114-140 | The amount by which the overlay's phandles are raised is the largest phandle of the base, or 0 if it has none. |
| OverlayDistinct.AllConserved | dtc-1.6.1/libfdt/fdt_overlay.c:619-649 | If no overlay node with a phandle lands on a node that has one, merging all fragments, each target looked up in the base as it is by then, neither loses nor invents a phandle. |
| OverlayDistinct.DistinctExact | dtc-1.6.1/libfdt/fdt_overlay.c:830-882 | Then after a successful fdt_overlay_apply all phandles are distinct iff those of the base and of the merged nodes were, no merged node has phandle 0 (unless the base has no phandles), and no symbolic fixup writes into the phandle of a merged node. |
| OverlayDistinct.DistinctAfter | dtc-1.6.1/libfdt/fdt_overlay.c:830-882 | With such clashes the conditions still suffice. |
| OverlayDistinct.HitsStand | dtc-1.6.1/libfdt/fdt_overlay.c:368-407 | The condition on the fixups can be read off the overlay before it is applied, if its local fixups do not lead into /__fixups__. |
| OverlayClash.PhandlesClash | dtc-1.6.1/libfdt/fdt_overlay.c:368-407 | A base and an overlay, both with distinct phandles, symbols, fixups and target-path in place, that is applied without an error and leaves a phandle twice. |
| OverlayImages.BaseBecame | dtc-1.6.1/libfdt/fdt_overlay.c:557-649 | Every node of the base is, at its new place, what it was: same name, same phandle, and same properties but for those that an overlay node landing on it has set. |
| OverlayImages.BasePrefix | dtc-1.6.1/libfdt/fdt_overlay.c:619-649 | The nodes above the new place of a node are the new places of the nodes above it. |
| OverlayImages.BaseReferenceKept | dtc-1.6.1/libfdt/fdt_overlay.c:619-649 | A cell of the base that held the phandle of a node still does after all fragments, if no overlay node landing there sets the property; the node keeps its phandle, and the lookup by it leads there if phandles are distinct. |
| OverlayBlob.ApplyNodeRefines | dtc-1.6.1/libfdt/fdt_overlay.c:557-602 | overlay_apply_node on the blob, a mix of setprop and add_subnode calls, does exactly the tree merge, or reports NOSPACE. |
| OverlayRoom.ApplyNodeRoom | dtc-1.6.1/libfdt/fdt_overlay.c:557-602 | It succeeds if there is room for all properties, names and nodes of the overlay node as if they were new, and it takes no more than that. |
| OverlayBlob.ApplyBlobRefines | dtc-1.6.1/libfdt/fdt_overlay.c:557-602 | So for any node of any overlay blob, applied to any node of a base blob. |
| FlatTree.InsertIs | dtc-1.6.1/flattree.c:220-233 | stringtable_insert returns the first offset of the string, suffixes of others included, and changes nothing, or, iff there is none, appends it; no earlier string moves. |
| FlatTree.FlattenHolds | dtc-1.6.1/flattree.c:235-291 | flatten_tree appends exactly the tokens of the tree. |
| FlatTree.BlocksHold | dtc-1.6.1/flattree.c:345-372 | Structure and strings block together hold exactly the tree. |
| FlatBlob.DtToBlobHolds | dtc-1.6.1/flattree.c:345-430 | dt_to_blob writes a blob that passes fdt_check_header and that libfdt reads as exactly that tree, with its entries and boot CPU. |
| FlatVersions.DtFromBlobReads | dtc-1.6.1/flattree.c:795-925 | On every blob that libfdt can edit, dt_from_blob returns the tree that libfdt reads, the boot CPU and as many reservation entries as libfdt counts, iff the reservation list ends inside the blob and the root stands alone; else it dies. |
| FlatVersions.ReservesCounted | dtc-1.6.1/flattree.c:684-710 | flat_read_mem_reserve finds the end of the list iff fdt_num_mem_rsv does, after as many entries. |
| FlatBlob.NeverMisaligned | dtc-1.6.1/flattree.c:586-595 | The word-alignment assertion of the reader never fails for versions 16 and 17, on any input. |
| FlatOld.OldNeverMisaligned | dtc-1.6.1/flattree.c:586-595 | Nor for versions 1 to 3. |
| FlatVersions.LoadNeverMisaligned | dtc-1.6.1/flattree.c:795-925 | So dt_from_blob never fails an assertion, on any blob of any version. |
| FlatBlob.ReadPropStrays | dtc-1.6.1/flattree.c:663-681 | A property is copied outside the buffer iff its words are there, its name is found and its stored length is 2^31 or more. |
| FlatBlob.UnflattenStays | dtc-1.6.1/flattree.c:730-792 | Without such a length nothing is read outside the buffer. |
| FlatVersions.CompileRoundTrip | dtc-1.6.1/flattree.c:345-430 | For each of the versions 1, 2, 3, 16 and 17, reading back what dt_to_blob writes gives the tree (in versions 1 to 3 with name properties), the entries up to the first of size 0 and, but for version 1, the boot CPU. |
| FlatVersions.UpToZeroIs | dtc-1.6.1/flattree.c:684-710 | All entries come back iff none has size 0. |
| FlatVersions.LatestBlob | dtc-1.6.1/flattree.c:345-430 | For version 17 this is the blob that DtToBlobHolds is about. |
| FlatOld.OldRead | dtc-1.6.1/flattree.c:730-792 | In versions 1 to 3, with full paths, each node is read back with a trailing name property, and the cursor ends exactly behind the emitted bytes. |
| FlatOld.OldRoundTrip | dtc-1.6.1/flattree.c:235-291 | Versions 1 to 3: from the two blocks the same tree comes back, plus a name property in every node that had none, whatever follows the blocks. |
| FlatOld.PlainIsSafe | dtc-1.6.1/flattree.c:713-728 | Names that are not empty, free of '/' and do not start with '@' can be recovered from full paths. |
| FlatInPlace.Emitter.FlattenTree | dtc-1.6.1/flattree.c:235-291 | The emitter with its two growing buffers appends what FlattenHolds is about. |
| FlatInPlace.Emitter.InsertString | dtc-1.6.1/flattree.c:220-233 | The table search and append, in place. |
| FlatInPlace.Inbuf.UnflattenTree | dtc-1.6.1/flattree.c:730-792 | The cursor-driven reader computes the form that the round trip is about. |
| FlatInPlace.Inbuf.UnflattenOldTree | dtc-1.6.1/flattree.c:730-792 | So for versions 1 to 3. |
| FlatInPlace.Inbuf.LoadTree | dtc-1.6.1/flattree.c:909-918 | The steps of dt_from_blob from the first word to FDT_END. |
| FlatInPlace.ReserveList | dtc-1.6.1/flattree.c:684-710 | The loop of flat_read_mem_reserve. |
| LiveTree.MergeIs | dtc-1.6.1/livetree.c:142-226 | merge_nodes keeps names unique and everything below a deleted node deleted, and its live view is the old one overridden by the new one. |
| LiveTree.OverrideNothing | dtc-1.6.1/livetree.c:279-336 | A node added again after its deletion shows only its new contents. |
| Data.KeepSorted | dtc-1.6.1/data.c:107-156 | Appending, adding a marker, merging and inserting keep markers in order and in bounds. |
| Data.MergePoints | dtc-1.6.1/data.c:130-156 | After data_merge every marker points at the bytes it pointed at, with its kind and reference. |
| Data.ExpandIs | dtc-1.6.1/checks.c:637-665 | Expanding path references one after the other is one simultaneous splice at the original markers. |
| Data.MarkersPoint | dtc-1.6.1/checks.c:637-665 | Every marker still points at the bytes it pointed at. |
| Data.PropData.InsertAtMarker | dtc-1.6.1/data.c:115-128 | data_insert_at_marker in place, with the loop over the later markers. |
| Data.PropData.ExpandPaths | dtc-1.6.1/checks.c:637-665 | The loop of fixup_path_references on one property. |
| LivePaths.FullPathMeans | dtc-1.6.1/util.c:84-106 | The full path of a node is its names, each behind a slash, and as a reference it means that node again, whatever its place in the tree. |
| LivePaths.PathsExpanded | dtc-1.6.1/checks.c:637-665 | At every path reference that means a node, by label or by path, the value holds in the end the full path of that node with a NUL, and this path means that node; all other bytes are as before. |
| LivePaths.FixPaths | dtc-1.6.1/checks.c:637-665 | The loop on one property; it fails iff a path reference means no node. |
| LivePhandles.ByRefExact | dtc-1.6.1/livetree.c:512-590 | A reference leads to a node iff it means it: "/" the root, a path the node at the end of its names, each the first of its name, and a label the first node, in preorder, that has it; and to none iff it means none. |
| LivePhandles.ExplicitIs | dtc-1.6.1/checks.c:485-530 | check_phandle_prop fails iff the property is not one cell, refers to another node or to none, or holds 0 or 0xffffffff, and returns the number of its cell. |
| LivePhandles.AskedIs | dtc-1.6.1/checks.c:532-556 | A node asks for the phandle of its 'phandle' property before that of 'linux,phandle', and fails for a bad one or two that differ. |
| LivePhandles.AllChecked | dtc-1.6.1/checks.c:532-565 | explicit_phandles fails iff some node has a bad phandle property or two that differ, or two nodes ask for the same phandle; else every node has the phandle it asks for. |
| LiveReferences.UsedAtMost | dtc-1.6.1/livetree.c:592-621 | The search for a free phandle takes at most as many steps as there are nodes. |
| LiveReferences.PhandleGot | dtc-1.6.1/livetree.c:592-621 | get_node_phandle gives a node that has none a number that no other node has, and the counter passes only numbers in use. |
| LiveReferences.NodesFixed | dtc-1.6.1/checks.c:602-633 | phandle_references deals with every marker: its cell holds the phandle of the node that the label or path means, which has one, or, in a plugin, 0xffffffff if it means none. |
| LiveChecks.BothChecks | dtc-1.6.1/checks.c:485-635 | Both checks in sequence: the first fails iff stated; otherwise every node shows its phandle in the flattened tree, phandles are distinct there, explicit ones are as given, and every marker is dealt with. |
| LiveInPlace.Nodes.CheckPhandleProp | dtc-1.6.1/checks.c:485-530 | check_phandle_prop with its failures. |
| LiveInPlace.Nodes.CheckExplicit | dtc-1.6.1/checks.c:532-565 | check_explicit_phandles on every node of a subtree. |
| LiveInPlace.Nodes.GetPhandleOf | dtc-1.6.1/livetree.c:592-621 | get_node_phandle with its search loop and the properties it adds. |
| LiveInPlace.Nodes.FixReferences | dtc-1.6.1/checks.c:602-633 | fixup_phandle_references on every node of a subtree; it fails iff a reference has no target and the tree is no plugin. |
| LiveInPlace.Nodes.RunChecks | dtc-1.6.1/checks.c:485-635 | The two checks on the fields of the nodes, with the result of BothChecks. |
| Checks.RunIs | dtc-1.6.1/checks.c:154-192 | One check, with its prerequisites: what it runs, reports and leaves. |
| Checks.ProcessChecks | dtc-1.6.1/checks.c:1959-1981 | Over every acyclic table: the in-progress assertion never fails; no body runs twice, each comes after the bodies of all its prerequisites, which have found nothing, and none comes after an error-level body that found something; the status of a check seen says whether it, or anything it needs, finds a fault; the error flag is set iff an error-level check seen has not passed; without an error the checks seen are exactly those that enabled checks need, and with one there is a first enabled check to blame and nothing was seen but what enabled checks up to it need. |
| Checks.Runner.RunCheck | dtc-1.6.1/checks.c:154-192 | run_check on its status and in-progress fields. |
| Checks.Runner.ProcessAll | dtc-1.6.1/checks.c:1959-1981 | The loop of process_checks. |
| Literal.LiteralRoundTrip | dtc-1.6.1/data.c:56-77 | Printing a string literal and reading it back gives the same bytes iff no inner NUL is directly followed by an octal digit. |
| Literal.ReadsSimple | dtc-1.6.1/util.c:184-231 | A byte other than a backslash stands for itself, and so does one behind a backslash, but for octal digits, x, and the letters a, b, t, n, v, f, r, which stand for 7 to 13 in that order. |
| Literal.ReadsOctal | dtc-1.6.1/util.c:144-160 | One to three octal digits behind a backslash, as many as there are, stand for their value to the base 8, modulo 256. |
| Literal.ReadsHex | dtc-1.6.1/util.c:167-182 | One or two hexadecimal digits behind a backslash and x, in either case of the letters, stand for their value. |
| Literal.ReadsSigned | dtc-1.6.1/util.c:167-182 | If what follows the x is no digit, a blank or a sign may stand before one digit, which a minus sign negates; in all other cases the program dies. |
| Literal.PrintIsText | dtc-1.6.1/treesource.c:49-100 | What is printed is printable, and printable bytes other than quote and backslash are printed as they are. |
| Literal.PrintedLexes | dtc-1.6.1/dtc-lexer.l:15 | The lexer's string pattern matches the printed text up to its own closing quote, whatever follows. |
| Literal.LexExact | dtc-1.6.1/dtc-lexer.l:15 | The pattern matches up to an index iff a quote stands there and before it only characters other than backslash and quote, and backslashes with anything but a newline behind them. |
| Literal.WriteString | dtc-1.6.1/treesource.c:49-100 | The loop of write_propval_string prints that text. |
| Literal.CopyEscapeString | dtc-1.6.1/data.c:56-77 | The loop of data_copy_escape_string reads as the round trip has it. |

## Left out

- The address alignment test of the probes; the model has no addresses.
- Wip.NopPropertyStays: for versions below 16 the property lookup reports BADVERSION before anything is
  written; other readers and the editors are stated for version 16 or 17, only fdt_next_tag and
  fdt_open_into look at older ones.
- Fdt.NextTagAdvances: not stated for versions below 16, where long values are aligned to 8 bytes.
- Blob.RwProbeSane: not stated for last-compatible headers of versions above 17, which the probe lowers,
  nor for headers whose 32-bit sums wrap in the ordering test.
- EditTheorems.SetPropRefines: names and values are shorter than 2^31 - 16, since the code takes lengths
  as int; the same holds for all calls that take a name or a value.
- The codes STRAYS and DIVERGES stand for a store outside the buffer and for a loop without end; the C code
  has no such codes.  INTERNAL is its own.
- Paths.PathOffsetIs: absolute paths only; aliases are not modelled.
- Paths.GetPathIs: for trees whose first item is the root, as blobs have it, and names without '/'.
- Check.CheckFullExact: for version 17 and structure blocks in which no property that the walk reaches has a
  stored length from 0xfffffff4 on; there the walk would continue inside the property's own header.
- Pack.PackKeeps: needs a reservation map that ends inside its block; without one the code counts on into
  the structure block.
- OpenInto.OpenKeeps: needs the three blocks inside the blob, and does not state the boot CPU field, which
  is read after the new buffer has been written and so may be read from it.
- SeqRuns.WriterRefines: names are such that the room test does not wrap (RoomTestExact); property calls
  after a subnode are allowed, but only a blob with properties first is `Holds`, else `HoldsLoosely`.
- OverlayDistinct.DistinctExact: fdt_overlay_apply up to overlay_symbol_update, which is not modelled; symbol
  and target paths that start with an alias are not followed, and a path without a NUL, which the code
  would read on behind, ends the model with STRAYS.  If overlay nodes with phandles land on nodes that
  have one, only DistinctAfter is stated.
- OverlayKeeps.LocalReferenceKept: __local_fixups__ and __fixups__ are read before anything is updated; an
  overlay that lists cells of its own fixup trees is not modelled.  No two fixup children of a node may
  update the same child.
- OverlayKeeps.LocalKeepsPhandles: no node of the overlay has two properties of one name, as the compiler
  checks; the same holds for the results of OverlayDistinct and OverlayImages.
- OverlayRefs.BumpExact: the cell is read before the test on its offset, so outside the value if the test
  fails; the model has only the test and the store.
- LocalFixups.GenerateIs: trees and lists are values; labels and paths of references are resolved before,
  and deleted nodes and properties are left out of the tree.
- LabelLinking.LabelsResolved: the list of references is read before anything is patched; deleted nodes and
  properties are left out of the tree, and a colon in a path or a property name makes the compiler die.
- LiveTree.MergeIs: lists are values, so aliasing and the order of new siblings in memory are not seen.
- Fixups.FixupsRoundTrip: entries without ':' and NUL, as add_fixup_entry requires, and offsets below 2^64.
- LiveChecks.BothChecks: as long as the counter, which passes at most as many numbers as there are nodes,
  stays below 2^32 - 1; every marker stands at a cell of its value, and cells do not overlap, as the parser
  makes them.  Deleted nodes and properties are left out of the tree.
- FlatVersions.DtFromBlobReads: files with fewer than 40 bytes, or whose totalsize is below 40, are not
  modelled, nor reading from the file.
- FlatOld.OldRoundTrip: nodes with children have paths that do not end in '/', and names that start with '@'
  come with a name property; other names are not recovered from full paths.
- FlatBlob.DtToBlobHolds: for version 17 of the output, the one that libfdt can edit; the padding options
  are one parameter.
- malloc and die, messages, the assembler output, YAML and file system input, the command line tools, the
  lexer and parser other than the string pattern, the checks of single bindings, fdt_addresses.c and
  fdt_strerror.c: easy or outside the logic modelled here.
- The processor core described in docs/: its sources are not part of this model.
