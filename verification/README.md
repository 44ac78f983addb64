# Proofs about babelfish's device tree engine

babelfish patches a flattened device tree (DTB) in memory before it starts a kernel. The whole tree lives in
one byte buffer: a header, a memory reserve map, a structure block of tags, and a strings block with the
property names (sections 5.2 to 5.6 of the Devicetree Specification). `lib/libfdt` reads that buffer with a
lexer that keeps nothing but an offset and an integer depth, edits it in place with `memmove` and header
arithmetic, and writes new blobs with a table of names that grows down from the end of the buffer.
`src/fdt_tools.c` hands out phandles and groups pins on top of it, and `lib/libfex` keeps the board
description in circular lists.

This project models that code and proves what it does. The functions that search, change, move or write a blob
are Dafny methods over an `array<byte>` with the same branches, the same loops and the same error codes, each
proved against a small operation on an abstract tree.

## How it is built

1. `Bytes`, `Memory`, `Blob`: cells, `memmove` and friends over one buffer, header fields, the layout of the
   blocks, and the three splices proved against replacement in a sequence.
2. `Structure`, `Lexer`: the contents of a structure block as a datatype `Body` (nodes, properties, NOPs,
   padding), their encoding `Flat`, and `fdt_next_tag` with its 32-bit arithmetic. A scan that knows only an
   offset is related to a stack of contents still ahead (`On`, `Step`).
3. `Nodes`, `Trees`, `Attrs`, `Walk`, `Ancestors`, `Lookup`, `Subnodes`, `Children`: nodes by their number in
   document order, the tree a block stands for (`Erase`: NOPs and padding forgotten), and all the scans.
   `Decoding` shows that a blob has one reading only.
4. `Names`, `Edits`, `Rw`, `RwNodes`, `Reserve`, `Wip`, `Runs`: the read-write functions, and runs of them.
   `Survivors`: what deleting and renaming leave of the other nodes. `Readback`: what the lookups say after an edit.
5. `Packing`, `Opening`: `fdt_pack` and `fdt_open_into`. `Paths`, `PathLookup`: paths both ways.
6. `Writer`, `Stream`, `Finishing`, `RoundTrip`, `Sessions`: the streaming writer as a state machine, and whole
   sessions of its functions.
7. `Stores`, `Phandles`: edits of one node counted in free bytes, and phandles. `Shapes`, `Groups`, `Sites`,
   `Boards`, `Outcomes`, `Budgets`, `Pinctrl`: pin groups, what they should be, and the free bytes they need.
8. `HookList`, `Script`, `ScriptBin`, `ScriptImage`: the lists of `lib/libfex`, the decoder of its binaries, and
   binaries written out field by field.
9. `Formats`, `Spelling`: the numbers and the texts of the format, with none of the names used above: which headers
   are accepted, what four bytes of a tag mean, one blob byte for byte, and a board's paths and aliases.

A predicate `Encodes(s, top)` says that the bytes `s` are a complete blob in the layout that edits need and
that its structure block is the encoding of `top`; `TreeOf(s, top)` is its tree. Methods take `top` and the
number `k` of the node at the caller's offset as ghost arguments (`k` negative: an offset that the library
refuses), and return the new contents the same way. Outcomes have names: `Grown` (the structure block and
perhaps the strings block changed and nothing else), `Kept` (nothing changed), `MovedBy` and `Shifted` (where
the surviving nodes went).

## What callers have to see to

- Buffers and sizes stay below 2^31 bytes, values below 2^31. The lexer itself is modelled with its 32-bit
  wrap: `LexerProgress` shows that it makes progress on every accepted tag except a property whose length
  field is 2^32 - 12.
- Offsets passed in are those of nodes, or ones that the library refuses. A property precedes the subnodes of
  its node, and its length lies inside the block.
- Names looked up are not empty and hold no NUL: `memcmp`, `memchr` and `strchr` of `src/string.c` are only
  right for that. Values are not part of the blob they are stored in.
- Path functions: the root is at offset 0, its name is empty for the round trip, names below it hold no '/'.
- The writer: at every property call the table of names, with the new name, is no longer than the buffer. The
  room test compares unsigned numbers and is right exactly then (`RoomTest`); `OverrunIff` says which sessions break
  this, `LongName` gives one, and `NamesFit` a condition on the tree that rules it out. No reserve entry is added while
  a name is in its way, which the code does not test (`ReserveApart`, `NameHit`); that takes a client that goes on after
  an error. Before `fdt_finish` the calls are properly nested and the reserve map has been ended.

## Model

| member | source | states |
|---|---|---|
| Memory.MemMove | src/string.c:32-49 | for every overlap of source and destination the two loops leave what a copy from a snapshot would |
| Memory.MemCpy | src/string.c:20-30 | the destination holds the value, everything else is as it was |
| Memory.MemSet | src/string.c:51-60 | n bytes become c, everything else is as it was |
| Memory.MemCmp | src/string.c:14-18 | for n >= 1, the difference of the first two characters that differ, zero exactly when the n bytes agree |
| Memory.MemChr | src/string.c:4-12 | for n >= 1, the place behind the first such character, NULL exactly when there is none |
| Memory.StrCmp | src/string.c:82-103 | lengths decide first, then the first characters that differ; zero exactly when the strings are equal |
| Memory.StrChr | src/string.c:75-80 | for a non-empty string, the first place of the character, or none |
| Lookup.StrLen | src/string.c:116-124 | the distance to the first NUL |
| Structure.AlignShift | lib/libfdt/libfdt_internal.h:55-56 | rounding up to the tag size commutes with adding an aligned offset |
| Blob.SpliceRaw | lib/libfdt/fdt_rw.c:97-108 | everything behind the splice point moves by the difference, or nothing changes and the error says why |
| Blob.SpliceRsv | lib/libfdt/fdt_rw.c:110-121 | the reserve block is spliced, both other blocks move unharmed and their offsets follow |
| Blob.SpliceStruct | lib/libfdt/fdt_rw.c:123-135 | the structure block is spliced as a sequence would be, the strings block moves unharmed; NOSPACE exactly when the growth exceeds the free bytes |
| Blob.SpliceString | lib/libfdt/fdt_rw.c:137-148 | the strings block grows at its end, nothing else changes |
| Blob.CheckHeaderAt | lib/libfdt/fdt.c:58-75 | the verdict on magic and versions, for complete and unfinished blobs; 0 exactly for magic 0xd00dfeed with version at least 16 and last compatible version at most 17, and for an unfinished blob (0x2ff20112) that has contents |
| Formats.HeaderBytes | lib/libfdt/fdt.h:57-74 | where each header field stands, most significant byte first |
| Formats.HeaderAccepted | lib/libfdt/fdt.c:58-75 | the headers that are accepted, and exactly which error each other one gets, in numbers |
| Formats.EditsAccepted | lib/libfdt/fdt_rw.c:58-83 | the headers that edits accept, and the error for the others, in numbers |
| Formats.ErrorNumbers | lib/libfdt/libfdt.h:61-114 | the error codes |
| Lexer.OffsetPtr | lib/libfdt/fdt.c:77-91 | NULL exactly when the unsigned sum leaves the block, from version 17 on |
| Lexer.NextTag | lib/libfdt/fdt.c:93-141 | tag and next offset are those of TagAt, wrap-around included |
| Structure.LexerProgress | lib/libfdt/fdt.c:118-139 | an accepted tag moves an aligned scan forward to an aligned offset, unless its length field is 2^32 - 12, and then it does not |
| Structure.LexHead | lib/libfdt/fdt.c:93-141 | the encoding of a tag, wherever it stands, is lexed as that tag |
| Structure.LexStep | lib/libfdt/fdt.c:93-141 | one lexer step takes exactly one tag off the stack of contents ahead |
| Formats.NodeTag | lib/libfdt/fdt.c:108-114 | 0, 0, 0, 1 and any name with its NUL is the begin of a node, up to the next multiple of four |
| Formats.PropertyTag | lib/libfdt/fdt.c:116-123 | 0, 0, 0, 3 and any length is a property with a value of that length |
| Formats.PlainTag | lib/libfdt/fdt.c:125-128 | 0, 0, 0 and 2, 4 or 9 are the end of a node, a NOP and the end of the block |
| Formats.NoTag | lib/libfdt/fdt.c:99-131 | any other four bytes are a bad structure, and fewer than four are truncated |
| Formats.CutTag | lib/libfdt/fdt.c:108-135 | a name without NUL and a value that leaves the block are a bad structure |
| Nodes.HereOn | lib/libfdt/fdt.c:93-141 | the computed offset of the k-th node is where a scan meets it, with exactly its contents ahead |
| Nodes.OffMonotone | lib/libfdt/fdt.c:161-199 | document order is offset order |
| Decoding.ReadOnce | lib/libfdt/fdt.c:93-141 | two readings of a block from the same place and depth are equal |
| Decoding.BlobOnce | lib/libfdt/fdt.c:93-141 | a blob stands for one tree only |
| Formats.SmallBlob | lib/libfdt/fdt.h:57-103 | 150 bytes, written out, are a blob that edits accept, with a reserve entry, a node, a NOP and two properties, and say just that |
| Walk.CheckNodeOffset | lib/libfdt/fdt.c:143-150 | for every offset below 2^31: accepts exactly aligned offsets of BEGIN_NODE tags and returns the offset behind the tag |
| Lookup.CheckPropOffset | lib/libfdt/fdt.c:152-159 | accepts exactly aligned offsets of properties |
| Walk.NextNode | lib/libfdt/fdt.c:161-199 | where the tag loop stops and the depth it returns, without a depth and with any depth, for every offset accepted or refused |
| Walk.DocumentOrder | lib/libfdt/fdt.c:161-199 | from the k-th node it comes to the (k+1)-th in document order with the difference of the tree depths, or leaves the base, or ends |
| Ancestors.RootScanNext | lib/libfdt/fdt.c:161-199 | in a scan from the root each step goes from one node to the next in document order, at its tree depth and at a higher offset |
| Walk.NodeEndOffset | lib/libfdt/fdt_wip.c:97-105 | the offset just behind the matching END_NODE tag |
| Children.FirstSubnode | lib/libfdt/fdt.c:201-210 | the first child of the node, or NOTFOUND, also for offsets that are refused |
| Children.NextSubnode | lib/libfdt/fdt.c:212-227 | the next sibling of the node, or NOTFOUND, also for offsets that are refused |
| Children.ListIsChildren | lib/libfdt/fdt.c:201-227 | walking first and next lists exactly the children |
| Names.FindString | lib/libfdt/fdt.c:229-239 | the first place where the name stands with its NUL, or none if it stands nowhere |
| Names.InternReads | lib/libfdt/fdt_rw.c:150-170 | the offset of an interned name reads back as exactly the name |
| Names.InternAgain | lib/libfdt/fdt_rw.c:150-170 | interning a name again gives the same offset and grows nothing |
| Names.MoreStrings | lib/libfdt/fdt_rw.c:163-169 | every earlier name offset keeps its string when the block grows |
| Rw.FindAddString | lib/libfdt/fdt_rw.c:150-170 | the strings block becomes what interning makes of it, or nothing changes for lack of space |
| Subnodes.NodenameEq | lib/libfdt/fdt_ro.c:58-76 | a name matches itself, and itself with a unit address if it gives none |
| Spelling.NameAnswers | lib/libfdt/fdt_ro.c:58-76 | a node answers to its name, and to a name without 64 ('@') that stands in front of the first 64 of its own |
| Lookup.StringEq | lib/libfdt/fdt_ro.c:83-89 | exactly when the string at the offset is the name |
| Lookup.NextProp | lib/libfdt/fdt_ro.c:108-130 | the first property ahead in this node, NOPs skipped |
| Lookup.FirstPropertyOffset | lib/libfdt/fdt_ro.c:221-229 | the first property of a node |
| Lookup.NextPropertyOffset | lib/libfdt/fdt_ro.c:231-237 | the property behind a property |
| Lookup.GetPropertyByOffset | lib/libfdt/fdt_ro.c:239-258 | address and length of a property, or the error |
| Lookup.GetProperty | lib/libfdt/fdt_ro.c:260-282 | the first property of that name with its length, or NOTFOUND, or BADOFFSET |
| Attrs.FindPropIndex | lib/libfdt/fdt_ro.c:260-282 | the scan over tags finds the property that the tree's list of values has first under that name |
| Rw.GetPropertyW | lib/libfdt/fdt_rw.c:205-213 | the same lookup on the tree: which property, where it stands, what its value is |
| Subnodes.SubnodeOffset | lib/libfdt/fdt_ro.c:132-149 | the first child whose name matches, at its offset, or the error |
| RwNodes.GetName | lib/libfdt/fdt_ro.c:201-219 | place and length of the node's name |
| Ancestors.SupernodeAtDepth | lib/libfdt/fdt_ro.c:409-443 | the ancestor at that depth up to the node's own, NOTFOUND beyond it, the errors for offsets that are no nodes |
| Ancestors.NodeDepth | lib/libfdt/fdt_ro.c:445-454 | the depth of the node in the tree, or the error of the header or of the offset |
| Ancestors.ParentOffset | lib/libfdt/fdt_ro.c:456-464 | the node among whose children this one is; NOTFOUND for the root; the error of the header or of the offset |
| Ancestors.ParentIff | lib/libfdt/fdt_ro.c:456-464 | the ancestor one level up is exactly the node that has this one as a child |
| Paths.GetPath | lib/libfdt/fdt_ro.c:357-407 | succeeds exactly when the buffer has two bytes and holds path and NUL, and then holds the names from the root down; NOSPACE otherwise |
| Paths.PathAnc | lib/libfdt/fdt_ro.c:368-399 | the path kept while scanning is that of the parent and one more name |
| Paths.PopNames | lib/libfdt/fdt_ro.c:371-376 | the names that the next node does not share are taken back, and the buffer holds the path of its parent |
| Paths.PushName | lib/libfdt/fdt_ro.c:378-388 | the name is added if it fits, and the buffer holds as much of the path as it can |
| Paths.EndPath | lib/libfdt/fdt_ro.c:394-397 | the path without its last slash, NUL-terminated; the root keeps its slash |
| PathLookup.PathOffset | lib/libfdt/fdt_ro.c:157-199 | the node that the path's names lead to, through an alias if it does not start with a slash, or the error |
| PathLookup.Follow | lib/libfdt/fdt_ro.c:180-198 | the loop leads where the rest of the path's names lead, slashes repeated or missing |
| PathLookup.FindAlias | lib/libfdt/fdt_ro.c:340-350 | the string of the property of /aliases, or none |
| Spelling.AliasMeans | lib/libfdt/fdt_ro.c:157-199 | for every tree: a path that begins with a name means what it means with the string of that property of "/aliases" in its place, and is -5 without that node or property |
| Spelling.AliasLeads | lib/libfdt/fdt_ro.c:340-350 | in a board's tree, spelled out, "serial0" and "/soc/uart" both lead to uart@0 below soc@01c00000 |
| PathLookup.PathRoute | lib/libfdt/fdt_ro.c:180-196 | the string written for a node is taken apart into the names of its ancestors and itself |
| Spelling.PathStep | lib/libfdt/fdt_ro.c:180-196 | 47 ('/') and a name are taken off the front of any path |
| PathLookup.PathInverse | lib/libfdt/fdt_ro.c:157-199 | the path of a node leads back to it if and only if no node on the way has an earlier sibling of its name, or of its name with a unit address |
| PathLookup.ThereAndBack | lib/libfdt/fdt_ro.c:157-407 | fdt_get_path and then fdt_path_offset on what it wrote: NOSPACE exactly when the path does not fit, else the node started from if and only if nothing on the way is hidden |
| PathLookup.PathIsString | lib/libfdt/fdt_ro.c:378-399 | no NUL is in the path that is written |
| PathLookup.HiddenSibling | lib/libfdt/fdt_ro.c:58-76 | a tree in which the path of the node a leads to its sibling a@1 |
| PathLookup.DescendIff | lib/libfdt/fdt_ro.c:132-149 | the same from any ancestor down |
| Shapes.ReachAdd | lib/libfdt/fdt_ro.c:157-199 | after a subnode was added names lead to the same node if and only if they do not leave its parent by a name that the new node answers; if they do, they lead to the new node or nowhere |
| Shapes.PathSame | lib/libfdt/fdt_ro.c:157-199 | what a path finds in the blob depends on the tree alone |
| Rw.RwCheckHeader | lib/libfdt/fdt_rw.c:70-83 | the verdict, and a version above 17 set to 17 with nothing else changed |
| Rw.BlocksMisordered | lib/libfdt/fdt_rw.c:58-68 | the order test in unsigned 32-bit arithmetic |
| Rw.ResizeProperty | lib/libfdt/fdt_rw.c:205-221 | the property is resized in place with its new length stored, or nothing changes and the error says why |
| Rw.AddProperty | lib/libfdt/fdt_rw.c:223-249 | a new property opens in front of the others; without space at most its name was added |
| Rw.Reshape | lib/libfdt/fdt_rw.c:215-219 | the room of the value changes to the new length, the old value still stands if it got longer, nothing else changes |
| Rw.OpenProperty | lib/libfdt/fdt_rw.c:238-247 | a property header with its room is spliced in, or nothing changes |
| Rw.SetProp | lib/libfdt/fdt_rw.c:274-290 | the tree becomes the one with that value, in place or as first property; NOSPACE exactly when name and value exceed the free bytes; where every other node went |
| Rw.AppendProp | lib/libfdt/fdt_rw.c:292-317 | the same for a value extended at its end |
| Rw.DelProp | lib/libfdt/fdt_rw.c:319-332 | the tree loses that property and nothing else |
| RwNodes.SetName | lib/libfdt/fdt_rw.c:251-272 | the tree has the node under its new name and is otherwise the same |
| RwNodes.SkipProps | lib/libfdt/fdt_rw.c:352-357 | the place behind the property list |
| RwNodes.InsertSubnode | lib/libfdt/fdt_rw.c:352-372 | the node is spliced in behind the properties, and the tree has it as first child |
| RwNodes.AddSubnode | lib/libfdt/fdt_rw.c:334-373 | a new first child behind the properties, at the offset returned; EXISTS exactly when a child's name matches; NOSPACE exactly when it exceeds the free bytes |
| RwNodes.DelNode | lib/libfdt/fdt_rw.c:380-392 | the tree loses the node with its subtree and nothing else; what is behind moves up by its length |
| Survivors.AfterDelete | lib/libfdt/fdt_rw.c:380-392 | every node left stands at its offset, or one subtree further up, and has there its name and its properties; a search among its children finds what it found, unless that was the node deleted |
| Survivors.AfterRename | lib/libfdt/fdt_rw.c:251-272 | every node stands at its offset, moved by the difference of the padded names if it comes later, and has there its name and its properties; a search among its children finds what it found, unless that was the node renamed or its new name answers |
| Trees.FlatSwap | lib/libfdt/fdt_rw.c:123-135 | replacing a node of the tree is a splice of the bytes at that node's offset and nowhere else |
| Trees.EraseSwap | lib/libfdt/fdt_rw.c:123-135 | and the tree read afterwards is the old one with that node replaced |
| Reserve.NumMemRsv | lib/libfdt/fdt_ro.c:99-106 | the number of entries before the first of size 0 |
| Reserve.GetMemRsv | lib/libfdt/fdt_ro.c:91-97 | address and size of the n-th entry |
| Reserve.AddMemRsv | lib/libfdt/fdt_rw.c:172-187 | the map has one more entry at its end (none for size 0), tree and structure offsets are untouched |
| Reserve.DelMemRsv | lib/libfdt/fdt_rw.c:189-203 | the map loses its n-th entry, tree and structure offsets are untouched |
| Reserve.DropAdded | lib/libfdt/fdt_rw.c:172-203 | deleting the entry just added restores the block byte for byte |
| Formats.EntryNumbers | lib/libfdt/fdt_ro.c:91-97 | address and size of an entry from its 16 bytes |
| Runs.Perform | lib/libfdt/fdt_rw.c:172-392 | each of the eight functions, called on a node of the blob, is an event of the runs below |
| Runs.CallRefines | lib/libfdt/fdt_rw.c:92-392 | each read-write call does to tree, strings, map and free bytes what its one-line meaning says, with the same result |
| Runs.RunRefines | lib/libfdt/fdt_rw.c:92-392 | over every run of calls the blob stays well-formed with the same total size and the same gap between the blocks, and holds what the calls make of the tree |
| Runs.RunKeepsNames | lib/libfdt/fdt_rw.c:137-170 | over every run the free bytes never run below zero and every name offset keeps its string |
| Readback.PutReads | lib/libfdt/fdt_rw.c:274-317 | after setting or appending, the lookup finds that value, or the old one longer by it; every other property, node and name is as before |
| Readback.DropReads | lib/libfdt/fdt_rw.c:319-332 | deleting a property fails exactly if it is missing; otherwise it is gone (if no two had its name) and every other value is as before |
| Readback.TitleReads | lib/libfdt/fdt_rw.c:251-272 | after renaming, the node has that name and all else is as before |
| Readback.FailedKeeps | lib/libfdt/fdt_rw.c:172-394 | a call that fails leaves tree and reserve map as they were |
| Wip.SetPropInPlace | lib/libfdt/fdt_wip.c:58-73 | a value of the same length replaces the old one and only its bytes change |
| Wip.NopRegion | lib/libfdt/fdt_wip.c:75-81 | whole cells become NOP tags, up to the one that covers the last byte |
| Wip.NopProperty | lib/libfdt/fdt_wip.c:83-95 | the tree loses the property, no byte outside it changes, every node stays where it was |
| Wip.NopNode | lib/libfdt/fdt_wip.c:107-118 | the tree loses the node with its subtree, no byte outside it changes, every other node stays where it was |
| Wip.NopIsDelNode | lib/libfdt/fdt_wip.c:107-118 | blanking and deleting a node leave the same tree, and the surviving offsets differ by the node's length |
| Wip.NopIsDelProp | lib/libfdt/fdt_wip.c:83-95 | blanking and deleting a property leave the same tree |
| Packing.PackBlocks | lib/libfdt/fdt_rw.c:394-414 | the three blocks stand one behind the other at the destination although both ranges may overlap |
| Packing.PackInPlace | lib/libfdt/fdt_rw.c:486-489 | the moves inside one buffer lose nothing, and change no byte of a blob that has no gaps |
| Packing.Pack | lib/libfdt/fdt_rw.c:480-492 | the same tree and reserve map in exactly header, map, structure and strings; the blocks from byte 40 on, one behind the other; a blob of version 17 that is packed already keeps every byte |
| Packing.PackViewTwice | lib/libfdt/fdt_rw.c:480-492 | doing it twice is doing it once |
| Opening.WalkSize | lib/libfdt/fdt_rw.c:433-437 | before version 17 the walk ends with the true size of the structure block |
| Opening.OpenOrdered | lib/libfdt/fdt_rw.c:440-449 | a blob in order is moved whole and then accepted by edits with the same tree and map |
| Opening.OpenBuilt | lib/libfdt/fdt_rw.c:451-477 | any other is built anew, in the buffer or behind the old one, with the same tree and map |
| Opening.OpenInto | lib/libfdt/fdt_rw.c:416-478 | for any order of the blocks, version 16 or 17, apart or overlapping: NOSPACE exactly when it does not fit, else the buffer holds a blob that edits accept with the same tree and map, and with the same boot CPU unless it was rebuilt over the four bytes that hold it; the header it then has |
| Formats.OpenSmall | lib/libfdt/fdt_rw.c:416-478 | the 150 bytes, with version 16 or 17 in them, are opened into every large enough buffer, with their tree, their entry and that header |
| Stream.Create | lib/libfdt/fdt_sw.c:88-108 | an unfinished blob with nothing in it, for every buffer size, and each field of its header; NOSPACE exactly below 40 bytes |
| Stream.AddReservemapEntry | lib/libfdt/fdt_sw.c:110-131 | in every state: one more entry, BADSTATE once a node was begun, NOSPACE if it leaves the buffer; with names in its way 0 is returned and the entry stands over them |
| Stream.GrabSpace | lib/libfdt/fdt_sw.c:73-86 | fresh zeros behind the structure, or nothing; structure and names never meet |
| Stream.BeginNode | lib/libfdt/fdt_sw.c:138-152 | appends the encoded start of the node, or NOSPACE |
| Stream.EndNode | lib/libfdt/fdt_sw.c:154-166 | appends the end tag, or NOSPACE |
| Stream.FindAddName | lib/libfdt/fdt_sw.c:168-189 | the negative distance from the end at which the name stands; the table grows downwards only for a new name |
| Stream.Property | lib/libfdt/fdt_sw.c:191-211 | appends the encoded property with the negative offset of its name, or NOSPACE |
| Finishing.CorrectNames | lib/libfdt/fdt_sw.c:235-250 | the walk adds the size of the table to every name offset and changes nothing else |
| Finishing.Terminate | lib/libfdt/fdt_sw.c:223-233 | the END tag is added and the names are moved next to it, or nothing changes |
| Finishing.Finish | lib/libfdt/fdt_sw.c:213-256 | a complete blob of exactly the bytes used, names next to the structure, and each field of its header; NOSPACE exactly when the last tag does not fit |
| Writer.ApartIff | lib/libfdt/fdt_sw.c:73-211 | over any sequence of calls, errors included, map, structure and names never overlap if and only if no reserve entry meets that case |
| Writer.NamesStay | lib/libfdt/fdt_sw.c:168-211 | over any such sequence in which nothing is written where it does not belong, every property that was accepted stays in the structure with its stored offset, which reads back as its name in the final table |
| Sessions.WriteCalls | lib/libfdt/fdt_sw.c:110-211 | the functions themselves, called in any order and after errors too, leave the buffer in the state of that sequence |
| Writer.OccursSuffix | lib/libfdt/fdt_sw.c:168-189 | as the table grows every string stays at its distance before the end |
| Writer.ShareGrows | lib/libfdt/fdt_sw.c:168-188 | the table grows by a name exactly if the name does not occur in it yet |
| Writer.ShareReads | lib/libfdt/fdt_sw.c:243-245 | a stored negative offset, corrected at the end, reads back as the name |
| Writer.ReserveApart | lib/libfdt/fdt_sw.c:121-123 | a reserve entry leaves map and names apart if and only if it is refused or has room in front of the table of names |
| Writer.NameHit | lib/libfdt/fdt_sw.c:110-131 | in a buffer of 64 bytes a property that does not fit leaves its name of ten characters behind, and the next reserve entry is written over it |
| Writer.RoomTest | lib/libfdt/fdt_sw.c:181-184 | the unsigned room test for a name is right if and only if the table with the name is no longer than the buffer; if it is longer, it always passes |
| Writer.OverrunIff | lib/libfdt/fdt_sw.c:168-211 | a session writes in front of the buffer if and only if it comes to a property whose name makes the table longer than the buffer |
| Writer.RunForest | lib/libfdt/fdt_sw.c:138-211 | properly nested calls for a tree write exactly its encoding if there is room; if not they report NOSPACE, or overrun, which takes a table of names longer than the buffer |
| Writer.EraseMake | lib/libfdt/fdt_sw.c:213-256 | the tree read from what was written is the tree that was meant |
| RoundTrip.Streaming | lib/libfdt/fdt_sw.c:88-256 | for every tree and reserve list the session succeeds if and only if the final layout fits, and then the blob holds that tree and that list; when it does not fit, the one outcome other than NOSPACE is the overrun, which takes names longer than the buffer |
| RoundTrip.LongName | lib/libfdt/fdt_sw.c:181-186 | a session that overruns: a first property whose name is as long as the buffer |
| Sessions.WriteBlob | lib/libfdt/fdt_sw.c:88-256 | the functions themselves, called for a reserve list and a tree: unless the session is one that overruns, NOSPACE exactly when the final layout does not fit, else the buffer holds a blob that edits accept with that tree, that list and the final size, and with each field of its header |
| Sessions.NamesFit | lib/libfdt/fdt_sw.c:181-184 | no session overruns whose distinct names together are no longer than the buffer |
| RoundTrip.FinishedBlob | lib/libfdt/fdt_sw.c:213-256 | a finished blob is one that the read-write functions accept |
| Phandles.PhandleReads | lib/libfdt/fdt_ro.c:323-338 | for every list of properties: the cell in "phandle", else the cell in "linux,phandle", else 0; values that are not four bytes do not count |
| Phandles.GetPhandle | lib/libfdt/fdt_ro.c:323-338 | for a node: the cell in "phandle", else the cell in "linux,phandle", else 0 |
| Phandles.NodeOffsetByPhandle | lib/libfdt/fdt_ro.c:493-516 | the first node with that phandle, NOTFOUND if none has it, BADPHANDLE for 0 and all ones |
| Phandles.AllocPhandle | src/fdt_tools.c:12-24 | one more than the largest phandle read as a signed int, with the wrap of the addition |
| Phandles.AllocFresh | src/fdt_tools.c:12-24 | the result is positive and carried by no node if and only if no node carries 0x7fffffff |
| Phandles.AllocWraps | src/fdt_tools.c:12-24 | a node that carries 0x7fffffff, for which the result is -2^31 |
| Stores.PutProp | lib/libfdt/fdt_rw.c:274-317 | fdt_setprop and fdt_appendprop counted in free bytes: the exact properties, strings block and free bytes afterwards, with and without room; nodes in front stay where they were |
| Phandles.SetPhandle | src/fdt_tools.c:33-48 | the exact properties, strings block, free bytes and result; the second property is only tried if the first was set |
| Phandles.BothOutcome | src/fdt_tools.c:33-48 | it succeeds if and only if the free bytes cover the first property and both together; the first one stands if and only if they cover it |
| Phandles.CreatePhandle | src/fdt_tools.c:56-72 | the phandle that was there with nothing changed, or the outcome of setting a new one, exactly; 0 for an offset that is refused |
| Phandles.MadePhandle | src/fdt_tools.c:56-72 | for a node without a phandle: the result is the new phandle if and only if the free bytes cover both properties, else 0; the node has it if and only if they cover the first; so 0 is returned with the phandle in place if and only if they cover the first and not both; no other node changes its phandle |
| Phandles.MadeValues | src/fdt_tools.c:31-47 | a phandle that was created stands in "phandle" and in "linux,phandle" |
| Phandles.LostPhandle | src/fdt_tools.c:56-72 | a node where 0 is returned and the phandle stands: no names yet and 24 free bytes |
| Phandles.CreatedUnique | src/fdt_tools.c:56-72 | phandles stay unique and the new one is positive and this node's alone |
| Phandles.CreateAndFind | src/fdt_tools.c:56-72 | after a phandle was created fdt_get_phandle returns it, and fdt_node_offset_by_phandle leads to the node if and only if no node in front carries it and it is not all ones |
| Phandles.MadeAlone | src/fdt_tools.c:56-72 | no node in front carries it if phandles were unique and none was 0x7fffffff |
| Pinctrl.BuildName | src/fdt_tools.c:88-114 | the name of the gpio's class, spelled out for each pull and drive; unknown pull and drive values are cleared in the array |
| Pinctrl.PinString | src/fdt_tools.c:151-159 | the characters of the pin, in 8 bits each; for ports 1 to 26 and numbers below 100 the letter is the port and the digits are the number |
| Pinctrl.FillGroup | src/fdt_tools.c:126-132 | the three edits of a new group, each exact with or without room; nothing in front of it moves |
| Pinctrl.RegisterGroup | src/fdt_tools.c:134-148 | the edits of the device and the phandle of the group, each exact with or without room; the device is found anew, the group stays at its offset |
| Pinctrl.MakeGroup | src/fdt_tools.c:121-148 | NOSPACE with nothing changed exactly when the node does not fit, else the group added, filled and registered as far as there is room; the pin controller stays at its offset |
| Pinctrl.EnsureGroup | src/fdt_tools.c:116-149 | the group of the class is found if it has appeared before, else made; its offset is returned |
| Pinctrl.AddGpio | src/fdt_tools.c:84-162 | one turn of the loop: blob, result and number of groups are those of the step on the board, and the gpio is normalised |
| Pinctrl.AddPinctrlGroup | src/fdt_tools.c:74-165 | tree, strings block, free bytes and result are those of the loop on the board, so only groups and the properties of the device change; it returns 0 with every group as it should be if and only if the free bytes cover what is needed; the held offsets stay valid |
| Budgets.SpaceNeeded | src/fdt_tools.c:74-165 | the loop on the board returns 0 with every group and the device as they should be if and only if the bill of all its edits, names entered once each, is covered by the free bytes |
| Budgets.NodeAlone | src/fdt_tools.c:121-148 | one gpio and room for its node alone: 0 is returned and the group is not as it should be |
| Budgets.NeededBound | src/fdt_tools.c:74-165 | 390 bytes for each gpio are always enough |
| Boards.AllNames | src/fdt_tools.c:84-162 | with or without room the groups there are those of the classes of the gpios handled, in order of first appearance |
| Outcomes.PinctrlMeaning | src/fdt_tools.c:84-162 | the group of a class holds the pins of exactly its gpios in input order (for ports 1 to 26 and numbers below 100: letter and two digits of each), with its function, pull and drive, under the names written in the code, and the device property for the j-th class to appear is the phandle of that group; up to the tenth class it is called pinctrl- with the decimal number j, and for the other two whatever has that name is as it was |
| Outcomes.PinctrlDefaults | src/fdt_tools.c:133-137 | in the resulting tree "pinctrl-names" of the device has "default" once more for each group |
| Outcomes.EleventhLost | src/fdt_tools.c:139-142 | twelve gpios of twelve classes: the eleventh group is there, and the device has no property pinctrl-10 |
| Outcomes.PinctrlUnique | src/fdt_tools.c:144-148 | the new phandles are numbered upwards from the largest one, so all phandles stay unique |
| Pinctrl.HeldOffset | src/fdt_tools.c:80-137 | for a device in front: after an edit of it that moves what is behind, a held offset denotes exactly the node that was that many bytes in front of the held one, if there is one |
| Pinctrl.StaleGroup | src/fdt_tools.c:144-161 | with a held offset of a group that denotes no node the phandle is 0 and the pin is lost, and the tree does not change |
| Pinctrl.StaleController | src/fdt_tools.c:116-124 | with a held offset of the pin controller that denotes no node the next group is neither found nor added, and the loop ends with BADOFFSET |
| Groups.GroupNameEq | src/fdt_tools.c:88-116 | the name of one class never finds the group of another |
| Groups.GroupText | src/fdt_tools.c:88-116 | the name of a gpio's group, spelled out for each pull and drive |
| Groups.PinSpells | src/fdt_tools.c:151-159 | for ports 1 to 26 and numbers below 100: 'P', the letter of the port and two decimal digits |
| Groups.PinTells | src/fdt_tools.c:151-159 | two such gpios have the same string exactly if port and number agree |
| Groups.PinsList | src/fdt_tools.c:151-161 | the pins of a class are those of its gpios in their order, five bytes each |
| Groups.DevNames | src/fdt_tools.c:133-137 | the device's list of names has "default" once more for each group |
| Groups.OrderOnce | src/fdt_tools.c:116-149 | every class that occurs gets one group, and no other does |
| Groups.OrderBound | src/fdt_tools.c:116-149 | there are never more than twelve groups |
| Groups.NumberedName | src/fdt_tools.c:139-142 | the name for the j-th group is pinctrl- with the decimal number j if and only if j is below ten |
| Groups.DevLinks | src/fdt_tools.c:144-148 | later registrations leave the device's j-th property alone |
| Groups.DevPhandle | src/fdt_tools.c:134-148 | registering groups does not change the device's own phandle |
| Groups.DevOthers | src/fdt_tools.c:134-148 | every property of the device but the names and the pinctrl ones keeps its value |
| Sites.PathHolds | src/fdt_tools.c:135-146 | the path of a device behind the pin controller, also below it, absolute or through an alias, leads to it after every group that was added, unless it passes the controller by a name that the device string begins with, up to an @ |
| Sites.OutsideFree | src/fdt_tools.c:135-146 | a device that is not below the pin controller is never hidden |
| Sites.HiddenDevice | src/fdt_tools.c:135-146 | after the first group an absolute path leads to the device if and only if that is not so; else it leads to the group or nowhere |
| Sites.MatchingHidden | src/fdt_tools.c:135-146 | the path /p/m below a pin controller p, for the device string m@1 |
| Sites.FindGroup | src/fdt_tools.c:116-122 | searching for the name of a class finds its group, or nothing if it has none yet |
| HookList.Inject | include/lib/libfex/common.h:60-69 | the four pointers, also when hooks coincide |
| HookList.Append | include/lib/libfex/common.h:71-72 | the ring of a list becomes that of the list with one more hook at its end |
| HookList.Insert | include/lib/libfex/common.h:71-72 | the same at its front |
| HookList.Remove | include/lib/libfex/common.h:74-80 | the ring becomes that of the list without the hook, which keeps its pointers |
| HookList.First | include/lib/libfex/common.h:82-86 | the first hook, or NULL for an empty list |
| HookList.Last | include/lib/libfex/common.h:88-92 | the last hook, or NULL for an empty list |
| HookList.Next | include/lib/libfex/common.h:94-99 | the hook behind, or NULL at the end |
| HookList.Empty | include/lib/libfex/common.h:101-105 | exactly for a hook that is alone on its list |
| Script.AppendEntry | lib/libfex/script.c:108-128 | a fresh entry at the end of the section, its name cut to 31 characters |
| Script.FindEntry | lib/libfex/script.c:244-262 | the first entry of that name, or NULL |
| Script.DeleteEntry | lib/libfex/script.c:130-161 | the entry leaves its list, the others stay in order |
| Script.NewSection | lib/libfex/script.c:50-69 | a fresh empty section at the end of the list |
| Script.FindSection | lib/libfex/script.c:88-106 | the first section of that name, or NULL |
| Script.DeleteEntries | lib/libfex/script.c:77-82 | the loop ends, and every entry has left the list once |
| Script.DeleteSection | lib/libfex/script.c:71-86 | the section leaves the list with all its entries, the other sections keep theirs |
| Script.DeleteScript | lib/libfex/script.c:34-48 | the loop ends, and every section and entry has left its list |
| ScriptBin.SeekEnd | lib/libfex/script_bin.c:115-120 | the end of a string value: its NUL or the end of its words |
| ScriptBin.DecompileEntry | lib/libfex/script_bin.c:99-151 | the entry with its decoded value is appended, or none for an unknown type |
| ScriptBin.FillSection | lib/libfex/script_bin.c:99-151 | the loop appends the supported entries in order |
| ScriptBin.DecompileSection | lib/libfex/script_bin.c:88-154 | a section with the supported entries in order |
| ScriptBin.DecompileBin | lib/libfex/script_bin.c:156-181 | the lists hold the in-order image of the binary behind what they held before |
| ScriptBin.BinSize | lib/libfex/script_bin.c:30-83 | the size is that of the head, the sections with entries, the entries, and the words of their values |
| ScriptBin.CountEntries | lib/libfex/script_bin.c:45-70 | the number of entries of a section and the words of their values |
| ScriptImage.ReadBack | include/lib/libfex/script_bin.h:22-51 | for every script whose names have at most 31 characters: decoding its binary, written field by field after the structs, gives back the script |
| ScriptImage.BinarySize | lib/libfex/script_bin.c:30-83 | the size computed is that of this binary if no section is empty |
| ScriptImage.EntryAt | lib/libfex/script_bin.c:99-151 | one entry: a row of 40 bytes and a value of each type at its word offset |
| ScriptImage.OtherTypes | lib/libfex/script_bin.c:146-148 | entries of types other than 1, 2, 4 and 5 are skipped, and no others |
| ScriptImage.NegativeCount | lib/libfex/script_bin.c:172-180 | the number of sections from its four bytes, low byte first; a negative one counts as none |

Where the code and what is written about it differ, the code is modelled:

- `src/fdt_tools.c:7-11` promises the next free phandle value. `AllocFresh` says exactly when that is so; with
  0x7fffffff in use the addition wraps to a negative int (`AllocWraps`).
- `src/fdt_tools.c:50-55` creates a phandle. `fdt_create_phandle` returns 0 although the node now has the phandle
  exactly when the free bytes cover the first of the two properties and not both (`MadePhandle`, `LostPhandle`).
- `fdt_add_pinctrl_group` does not look at the results of the edits behind `fdt_add_subnode`, so it can return 0 and
  leave groups incomplete (`NodeAlone`). It does so exactly when every node fits and the free bytes do not cover
  `Needed` (`SpaceNeeded`).
- `src/fdt_tools.c:139-142` numbers the device's properties with the single character '0' + n. That is a decimal number
  for the first ten groups and a colon or a semicolon for the other two (`NumberedName`, `EleventhLost`).
- `lib/libfdt/fdt_sw.c:181-184` is meant to refuse names that do not fit. It does so exactly as long as the table with
  the name is no longer than the buffer (`RoomTest`, `LongName`).
- `lib/libfdt/fdt_sw.c:121-123` tests a reserve entry against the end of the buffer and not against the names there.
  The blocks stay apart over every sequence of calls exactly as long as no entry meets that (`ApartIff`, `NameHit`).
- `fdt_add_pinctrl_group` looks the device up anew after each edit, but a group can then be in the way of its path
  (`HiddenDevice`, `MatchingHidden`).
- `lib/libfex/script_bin.c:119` tests the byte before it tests for the end, so a string that fills its words is read up to
  the byte behind them; `ReadBack` asks for one byte behind the binary.
- `lib/libfdt/fdt_ro.c:58-76` lets a name match a longer one with a unit address, so an earlier sibling can hide
  a node from its own path (`PathInverse`).

## Left out

- AddSubnode: a parent offset of -1 is left out, because it equals the error for a missing child and the code goes on with it.
- GetPath: offsets behind the root node are left out, because the loop that takes names back presumes a node that is still ahead.
- FirstSubnode: offsets below zero, from which the walk starts at the root, are left out.
- NextSubnode: offsets below zero are left out as for FirstSubnode.
- SubnodeOffset: the empty name is left out, because memcmp of no bytes reads on until two characters differ.
- GetProperty: the empty name is left out for the same reason.
- PathOffset: an empty path is left out, because strchr reads behind its NUL, and an alias has to be a NUL-terminated absolute path, because otherwise the code does not decide whether the lookup ends.
- FindAlias: the value of an alias has to hold a NUL, because the code takes it for a string.
- GetMemRsv: entry numbers behind the map are left out, because the code reads there without a test.
- DelMemRsv: the entry number is a natural number; the code does not refuse negative ones.
- OffsetPtr: the last test, whether the pointer wraps, is left out, because pointers are offsets into one buffer here.
- AlignShift: the mask of the macro is written as a division by four.
- NextTag: before version 17 nothing but memory bounds the block, so it is stated for blocks whose tags are all there.
- Property: the table with the new name has to be no longer than the buffer, because with a longer one the code writes in front of the buffer; `OverrunIff` says when a session comes to that.
- FindAddName: the same condition on the table.
- WriteBlob: sessions that overrun are left out for the same reason, and so are buffers below 48 bytes, in which no reserve map fits.
- WriteCalls: sequences in which a call writes where it does not belong are left out; from then on the buffer is in no state of the writer.
- Finish: only for properly nested structures and for reserve maps that were ended; what it makes of others is not stated.
- Terminate: only for reserve maps that were ended.
- OpenInto: what the boot CPU becomes when the blob is rebuilt over the bytes that hold it is not stated.
- AddPinctrlGroup: the device has to resolve, come behind the pin controller, and not be hidden by the groups (`HiddenDevice` says when an absolute path is), and must have no groups yet; its name has at most 34 characters so that the code's buffers hold. For an alias the aliases node is not the device. For a device in front of the pin controller the single steps are described (HeldOffset, StaleGroup, StaleController) and not the loop, because every edit of the device moves the nodes again.
- DecompileBin: entries and sections have to lie inside the binary, because the code does not compare them with its size.
- NewSection: allocation never fails here, so the NULL returns of the constructors of script.c are not modelled.
- Reading and editing are stated for version 17; version 16 only where fdt_open_into converts it.
- fdt_node_offset_by_prop_value, fdt_setprop_string and other thin wrappers over the functions modelled.
- fdt_stringlist_contains and the lookups by compatible strings: the repository's memchr returns one past the match, so they do not visit each string.
- src/fixup.c, src/main.c, src/head.S, the drivers, console output, the allocator and assert.
- fdt_strerror, the device tree sources and the build files.
- Addresses of the machine: pointers are offsets into one buffer, and aliasing is that of ranges in it.
