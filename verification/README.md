# Checkpoint rewriting, replay, and the algorithmic cores of the RISC-V tools

This project models, in Dafny 4.11, the parts of the repository whose correctness is hard to see from
one function, and proves what they promise.

- **Checkpoint rewriting** (`ckpt/parse.py`): the paged byte memory, the allocator over its holes, the
  rewrite of an image that replaces system calls by trampolines, and the merge of a rerun into the
  recorded calls for a second pass. Modules `Images`, `FreeLists`, `PageMaps`, `Layouts`, `Trampolines`,
  `SearchRuns`, `Checkpoints`, `Merging`, `Passes`; `InstalledImages` and `SettledPlaces` say address by address
  what a rewritten image holds and where its parts were put.
- **Replay** (`ckpt/replay.c`): the byte-level table that `make_replay_table` writes and the interpreter
  that runs it, over whole runs. Modules `ReplayTables`, `TableLayouts`, `Replays`, `ReplayRuns`, and
  `EndToEnd`, which takes the file of a pass through recompression and the loader to a run.
- **Loading** (`ckpt/cl.c`, `ckpt/main.c`, `ckpt/compress.py`): what a cfg/dump pair means, the recompressor
  that must keep that meaning, the place of the loader, and the order in which it maps segments. Modules
  `ImageFiles`, `Loaders`, `LoadedBytes`, `Recompression`, `LoaderBases`, `LoadOrders`.
- **The decoder generator** (`src/app/rv-meta.cc`): the decision tree that `generate_codec_node` builds
  and what a walk down it finds. Modules `CodecTrees`, `CodecExactness`, `CodecGenerators`.
- **Multi-word multiplication** (`src/asm/alu.h`, `src/app/test-mul.cc`): products by half-words for any
  word of 2q bits. Modules `Words`, `Multiplication`. The high products are MULH, MULHU and MULHSU of
  section 7.1 of The RISC-V Instruction Set Manual, Volume I.
- **The matrix inverse** (`example/foo.c`): the determinant by dynamic programming over column sets, the
  adjoint and the inverse, for any matrix size. Modules `Laplace`, `LaplaceColumns`,
  `ColumnBits`, `MatrixInverses`.
- **Linking** (`src/asm/assembler.cc`): labels, section layout and split-immediate relocations (RISC-V ELF
  psABI, section "PC-Relative Symbol Addresses"). Modules `PcRelative`, `Linking`, `Linkers`, `LinkedCode`.

`Bytes`, `Sorting` and `Powers` hold what the others share. `dafny verify dfyconfig.toml` checks everything.

Code that works in place is modelled in place: `Page`, `PageMap`, `Checkpoint`, `Opcode`, `Assembler` and
the matrix `Solver` are classes, the free list and the replayed memory are arrays. Each method is proved
against a relation on the state (`Wrote`, `ReserveEffect`, `Installed`, `LoadsTo`, `Built`, `Done`), and the
lemmas say what that relation is worth. Along process_once the relations are carried by subset types: a
value of type `Claim`, `Search`, `Nears`, `Origin` or `Draft` satisfies `SetAside`, `TraceOk`, `NearsUpTo`,
`OriginOk` or `Writing`, and the methods say which value they return.

## What the code demands of its callers

- The base of a reservation is a marked byte. The binary search makes no progress for a base inside a
  free range, and a free range holds no marked byte.
- A checkpoint has 64 registers of 8 bytes, and its call sites are equal or at least 4 bytes apart.
- The code generators produce code whose length depends only on whether a far call is given and on the
  altered register; a jump is 4 bytes, and everything else has even length.
- A replayed write is nonempty (the copy loop is a do-while), goes to an address above 3 (lower ones are
  record codes), and stays clear of the table, as do the program's own stores.
- The compression library decompresses what it compressed, and the sort library sorts; what it does with
  equal keys is left open.
- The loader takes up some memory: its size is at least the page for its stack.
- In a rerun the breakpoint lies at a call site or clear of all of them, and the printed values are words.

## What turned out not to hold

- `reserve` picks the range whose *edge* is closest to the base, but cuts a lower range at its upper end, so
  the block it hands out need not be a nearest one (`FreeLists.NearerBlockMissed`). It is exactly when the
  chosen range lies above the base, or every fitting range above the base is farther by at least the size of
  the block (`FreeLists.BlockIsNearest`).
- A word can reach an opcode that it does not match: bits marked done while an opcode sits under DEFAULT are
  never compared again (`CodecGenerators.UntestedBit`). Every word that finds an opcode matches it if and only
  if, at each node that files the opcode under DEFAULT, all unlisted values agree with it, or some such node
  lists every value (`CodecExactness.OnlyMatchesFound`); every word that matches it finds it if and only if no
  listed value at such a node agrees with it (`CodecExactness.AllMatchesFound`).
- `PCREL_LO12` looks its auipc up at the label's *address* instead of its offset in the section. It is found
  if and only if the section starts at address zero (`LinkedCode.PairFound`), and otherwise the
  relocation may even take itself for its pair and be patched wrongly (`LinkedCode.PairMissed`).
- A recompressed image loads to the original memory if and only if each compressed segment has a length other
  than its size and within the loader's buffer, or a length equal to its size, an aligned offset, and bytes
  that the codec left unchanged (`Recompression.Compress`). A ratio of at most 0.5 and a length of at most
  2048 guarantee it; with a ratio of 1 a page can be taken for a raw one, and the wrong bytes are mapped
  (`Recompression.RatioTooHigh`).
- One store assertion at address zero sorts first and reads as the terminator, so that no assertion is
  checked (`Replays.ZeroStoreHidesAll`); without one, all are.

## Model

| member | source | states |
|---|---|---|
| PageMaps.Page.Put | ckpt/parse.py:133-137 | writing part at offs changes exactly those bytes of the page and marks exactly them besides those already marked |
| PageMaps.PageMap.GetPage | ckpt/parse.py:154-157 | a missing page is created blank, which changes no byte and no mark of the image |
| PageMaps.PageMap.Put | ckpt/parse.py:162-170 | a put across any number of pages is one write to flat byte memory: exactly the bytes of data change, exactly they become marked, and exactly the touched pages exist |
| PageMaps.PageMap.Copy | ckpt/parse.py:454 | the deep copy has the same image on pages of its own |
| Images.WrittenOneMorePage | ckpt/parse.py:165-170 | after each page the flat write is complete below the next page and nothing above has changed |
| PageMaps.PageMap.MakeFreeList | ckpt/parse.py:172-191 | the ranges are sorted, apart, nonempty, 2-aligned and unmarked, each hole in one piece, and hold an aligned pair if and only if it lies in a hole that a later marked byte closes |
| FreeLists.ScanStep | ckpt/parse.py:179-189 | looking at one more byte keeps the list equal to the holes closed so far, whether the byte opens, continues or closes one |
| FreeLists.UnmarkedPairIsInHole | ckpt/parse.py:172-191 | with all pages at or above FIRST_PN, every aligned unmarked pair on a page with a marked byte after it is in a hole, hence in the list |
| PageMaps.PageMap.Bracket | ckpt/parse.py:195-207 | the binary search ends, with every range up to s at or below the base and every range from s + 1 on above it, empty ranges included |
| PageMaps.PageMap.ScanBothWays | ckpt/parse.py:209-225 | each side ends on the fitting range nearest the base on that side, or past the end if there is none |
| PageMaps.PageMap.Select | ckpt/parse.py:195-240 | no range is selected if and only if none can hold size bytes; the selected one has the least edge distance of all that can, the upper one of two |
| FreeLists.NearestOnEachSide | ckpt/parse.py:227-240 | of the nearest fitting ranges on the two sides the lower one is to be taken exactly if its edge is nearer, otherwise the upper one |
| PageMaps.PageMap.Reserve | ckpt/parse.py:193-251 | fails exactly when no range can hold size bytes, changing nothing; otherwise hands out an aligned, unmarked, now marked and zeroed block cut from the closest fitting range, the upper one of two, and the list is again a free list |
| FreeLists.CutKeepsFreeList | ckpt/parse.py:242-250 | the cut block is aligned and was unmarked, and the shrunk list is sorted, disjoint, aligned and unmarked in the new image |
| FreeLists.CutLosesBlock | ckpt/parse.py:242-250 | the list loses exactly the bytes of the block, all of which it held |
| FreeLists.BlockDistance | ckpt/parse.py:227-251 | the block's distance from the base is its range's edge distance, plus the size exactly when the range lies below |
| FreeLists.BlockIsNear | ckpt/parse.py:227-251 | no other fitting range would bring the block nearer by more than its size |
| FreeLists.BlockIsNearest | ckpt/parse.py:227-251 | no fitting range would give a nearer block if and only if the chosen one lies above the base or every fitting one above the base is farther by at least the block's size |
| FreeLists.NearerBlockMissed | ckpt/parse.py:228-234 | in a one-page image, with its complete free list and a marked base, the closest range gives a block 42 bytes away while another gives one 6 bytes away |
| FreeLists.TraceKeepsFreeList | ckpt/parse.py:193-251 | over any sequence of reservations the list stays sorted, disjoint, aligned and unmarked |
| FreeLists.BlocksApart | ckpt/parse.py:193-251 | over any sequence of reservations each block is aligned, touches no byte that was marked at any earlier time, and is disjoint from every earlier block |
| FreeLists.ListIsRest | ckpt/parse.py:193-251 | after any sequence of reservations the list holds exactly those bytes of the first list that are still unmarked |
| FreeLists.RefusedForRoom | ckpt/parse.py:209-240 | a request is refused if and only if no size bytes in a row are unmarked bytes of the first list |
| SearchRuns.OneCompleteList | ckpt/parse.py:172-191 | two complete free lists of the same pages and marks are equal |
| SearchRuns.SearchIsDetermined | ckpt/parse.py:193-251 | two searches for the trampolines of the same calls in the same image that ask the same requests get the same answers and leave the same list |
| SearchRuns.RefusalIsFinal | ckpt/parse.py:222-240 | where one search is refused a request, no search of the same requests has all of them granted |
| PageMaps.PageMap.ReservePage | ckpt/parse.py:253-262 | the least page number, from the search's start on, that begins enough consecutive absent pages |
| FreeLists.PagesNeededLeast | ckpt/parse.py:254 | the pages hold size bytes and one page fewer does not |
| PageMaps.PageMap.Dump | ckpt/parse.py:264-287 | loading the written file gives exactly the pages and bytes of the image, from ascending segments with a gap between any two |
| ImageFiles.RunsForDump | ckpt/parse.py:264-287 | gathering consecutive pages into segments loads back to exactly those pages, and the dump is the page data in order |
| Trampolines.MarkSites | ckpt/parse.py:365-368 | all four bytes of every site are set aside, disjoint from each other, exactly the touched pages are added, and nothing else has changed |
| Trampolines.ReserveNears | ckpt/parse.py:372-377 | each distinct site, in order of its first call, is asked for once with the length of its near call; all are granted and set aside, or the loop stops at the request that reserve refuses, or at the site whose body is too long |
| Trampolines.ReserveCalls | ckpt/parse.py:379-383 | the entry and far calls are asked for after that, near the entry point, and are set aside apart from all before unless one is refused |
| Trampolines.SetTrampolines | ckpt/parse.py:364-383 | starting from all holes between marked bytes, either every request is granted and the plan holds exactly the blocks handed out, or reserve refused a request that no remaining range could hold, or the call to be asked for next was too long |
| Checkpoints.StackIsPlanned | ckpt/parse.py:394-402 | with the stack on fresh pages, traps, near calls, entry, far, register file, table and buffer are pairwise disjoint and only traps lie on needed bytes |
| Checkpoints.WriteSites | ckpt/parse.py:404-414 | succeeds if and only if every jump of every site is in range; then each site has its trap and near call, once, although the map is emptied on the way |
| Layouts.WriteSlot | ckpt/parse.py:404-428 | writing one slot keeps all slots written before and every byte outside the plan |
| Checkpoints.RewriteImage | ckpt/parse.py:363-428 | on success no call is too long, all jumps are in range, every slot holds exactly its intended bytes at the disjoint places handed out and the first free pages, every byte outside the slots and its mark are as before, and exactly the pages that slots touch are added; it fails only if a request was refused, the next call to ask space for was too long, or a jump does not reach |
| Checkpoints.Checkpoint.ProcessOnce | ckpt/parse.py:363-436 | the same for the whole call, and the file written loads to exactly the rewritten image |
| Checkpoints.NeededBytesKept | ckpt/parse.py:363-428 | every byte the program needs, outside the 4-byte trap sites, is unchanged and still marked |
| InstalledImages.RegisterHeld | ckpt/parse.py:423-426 | word i of the register file is the far call's address for i = 0, the entry call's for i = 10, and register i as recorded for every other i below 64 |
| InstalledImages.TableHeld | ckpt/parse.py:427 | 528 bytes behind the register file's start lies the replay table |
| InstalledImages.BufferHeld | ckpt/parse.py:428 | right behind the table the buffer of the near calls holds the recorded sp |
| InstalledImages.FarCallHeld | ckpt/parse.py:419-420 | at its place is the far call made for the two words between the register file and the table |
| InstalledImages.ControlReturns | ckpt/parse.py:404-414 | at every site the image holds a jump to a near call made for the first call at the site, the far call and the buffer behind the table, and that ends in a jump back to just behind the site |
| InstalledImages.EntryReturns | ckpt/parse.py:416-417 | the entry call has the same buffer and no far call, and ends in a jump to the point where the checkpoint was taken |
| InstalledImages.AllJumps | ckpt/parse.py:53 | all jumps reach if and only if each site and its near call, its end and the instruction behind the site, and the end of the entry call and the entry point are at distances in [-2^20, 2^20) |
| InstalledImages.PagesAdded | ckpt/parse.py:162-170 | a page exists afterwards if and only if it existed before or a slot touches it |
| Images.TouchedPages | ckpt/parse.py:162-164 | a write touches exactly the pages that hold a byte of it, and an empty one the page it starts inside |
| SettledPlaces.NearRequested | ckpt/parse.py:372-377 | every near call is at the block that was asked for near its site, with the length that the first call there needs |
| SettledPlaces.CallsRequested | ckpt/parse.py:379-383 | the last two requests are for the entry call, then the far call, both near the entry point and of their lengths; the answers are their places |
| SettledPlaces.StackPlaced | ckpt/parse.py:394-402 | the register file starts a page; as many pages as 536 bytes and the table need are absent from there on, and, if all pages are from 0x10 on, nowhere lower from 0x10 on |
| SettledPlaces.BodiesFit | ckpt/parse.py:53-75 | no call is too long if and only if the entry call and every site's near call have bodies of at most 2^20 bytes |
| Checkpoints.LoadedBlocks | ckpt/parse.py:430-436 | each byte of each slot is at its address in the memory the written file loads to |
| Merging.Merge | ckpt/parse.py:473-501 | ends normally if and only if some prefix of the output uses up the recorded calls, values agreeing, with repeat - 1 executions; the result is the entries of the lines in line order, an interleaving of all calls and executions, and then the only break |
| Merging.EntryInPlace | ckpt/parse.py:480-489 | the entry of each line stands right after the entries of the lines before it |
| Merging.HitRecorded | ckpt/parse.py:480-484 | a printed execution becomes an entry at the breakpoint's address, with the printed value for the breakpoint's register, no write and no break, behind as many entries as values were printed before |
| Merging.CallRecorded | ckpt/parse.py:485-489 | a printed system call becomes, at its position, the next recorded call, which has the printed value |
| Merging.ValuesPrinted | ckpt/parse.py:473-499 | the second pass has the values that the lines print, in order, and then a break at the breakpoint that alters nothing |
| Merging.StopCounts | ckpt/parse.py:490-499 | when the merge stops, as many lines as there are recorded calls were system calls, and repeat - 1 were executions |
| Merging.SecondPassIsRecorded | ckpt/parse.py:490-503 | the merged sequence is one that can be encoded and replayed |
| Passes.SecondPassFits | ckpt/parse.py:474-503 | and its sites are as far apart as a pass demands, if the breakpoint is at a call site or clear of all |
| Passes.Process | ckpt/parse.py:438-504 | without a breakpoint the recorded calls are installed, with one a verbose first file is made of them and then the merged calls are installed in the pages as they were before the first pass, at the places that the search finds, in a file that loads to the result; it stops only where one of these passes has to fail for its calls or no prefix of the rerun completes the merge |
| Passes.OneOutcome | ckpt/parse.py:363-436 | whether a pass succeeds and at which places is settled by the image before it and what it is for: where one has to fail no other can succeed |
| ReplayTables.SysCall.MakeEntry | ckpt/parse.py:328-347 | the entry is the 16-byte stop record with code 0, 3 or 1 and the call's value, and before it the write, if any: address, size, data, and zeros up to the next multiple of 8 |
| ReplayTables.MakeReplayTable | ckpt/parse.py:526-547 | the table is the entry record, the entries in order, all assertions in tuple order, and the terminator |
| ReplayTables.EntryLayout | ckpt/parse.py:328-347 | every entry is a multiple of 8 bytes long, and each of its fields is where the interpreter looks for it |
| TableLayouts.EntryInTable | ckpt/parse.py:533-536 | entry i of the table starts at a multiple of 8 from its start, the first one at 16, and entry i + 1 where entry i ends |
| TableLayouts.TableLayout | ckpt/parse.py:526-547 | the table starts with code 2 and a0, the assertions follow the last entry, and its length is theirs at 24 bytes each and 16 more |
| TableLayouts.StoreAtOffset | ckpt/parse.py:539-543 | assertion k is its address, size and data as 8-byte words, at 24 k |
| TableLayouts.StoresLength | ckpt/parse.py:544-545 | behind the assertions are 16 zero bytes |
| ReplayTables.StoresByAddress | ckpt/parse.py:539 | the assertions are ordered by address, then size, then data |
| Replays.FastMemcpy | ckpt/replay.c:28-33 | for n > 0 and disjoint ranges, memory afterwards is memory before with the source bytes written at the destination |
| Replays.CheckStores | ckpt/replay.c:10-26 | succeeds if and only if every assertion up to the first address zero holds at its width, and then stops exactly on the terminator; other sizes are not compared |
| Replays.ZeroStoreHidesAll | ckpt/replay.c:12-25 | of the sorted assertions all are checked if none is at address zero, and none is if one is |
| Replays.DecodesAsWrite | ckpt/replay.c:50-76 | an encoded write is taken for a write if and only if its address is above the record codes |
| Replays.ReplayWrites | ckpt/replay.c:73-76 | all recorded writes before a stop record are applied, in order, and the head ends on that record |
| Replays.Replay | ckpt/replay.c:48-86 | one call applies exactly the pending writes, stops on the next stop record, and returns, finishes or fails as that record says, with the head just behind it |
| ReplayRuns.ReplayCall | ckpt/replay.c:48-86 | on an encoded table, call i applies its recorded write, advances the head by exactly the length of its entry, and leaves its return value in the word below the head |
| ReplayRuns.Run | ckpt/parse.py:526-547 | a whole run over the encoded table: the entry call returns a0, each later call applies exactly the next recorded write and yields the next recorded value, the last one checks the stores; memory is the same for verbose tables |
| ReplayRuns.ByteAfterCall | ckpt/replay.c:73-76 | after a call each byte is the one that the call's write puts there, or else the last of the program's stores to it since the call before, or else as after that call |
| EndToEnd.SlotLoaded | ckpt/parse.py:404-433 | after a successful rewrite, every trap, near call, entry, far call, register file, table and buffer is at its address in any flat memory that has the bytes of the loaded pages |
| EndToEnd.ReplayCheckpoint | ckpt/replay.c:48-86 | so in such a memory a whole run returns the recorded a0 and values and applies exactly the recorded writes |
| ImageFiles.RawFileLoads | ckpt/cl.c:9-27 | raw segments written one after the other load to exactly the pages written, from page-aligned offsets |
| Loaders.Process.MapPages | ckpt/cl.c:5-51 | the loop over the cfg builds the memory that the cfg/dump pair means, or panics exactly where it means none |
| LoadedBytes.LoadsIfMappable | ckpt/cl.c:11-44 | segments that share no page load if and only if each raw one lies within the dump at a page boundary, and each packed one is at most 2048 bytes of the dump and unpacks to at least one byte and at most its size |
| LoadedBytes.ByteLoaded | ckpt/cl.c:11-44 | then each byte of each segment is at its address: the byte of the dump, or the unpacked byte, or zero behind the unpacked ones |
| LoadedBytes.NoOtherPage | ckpt/cl.c:11-44 | and no page is mapped that is not a segment's |
| Recompression.ReadPages | ckpt/compress.py:43-61 | succeeds if and only if all segments are uncompressed and within the dump, and then holds exactly the pages of the segments, later ones overriding earlier ones, wherever they lie in the dump |
| Recompression.RawPagesLoad | ckpt/compress.py:43-61 | with aligned offsets these are the pages the loader maps |
| Recompression.Classify | ckpt/compress.py:67-93 | the compressed runs hold exactly the pages whose compressed size is at most the ratio of 4096 bytes, the others exactly the rest; runs of pages to leave alone never meet; a run of several pages to compress is, however cut short, within the length, and with the next page, if that is compressible too, it would not be |
| Recompression.Emit | ckpt/compress.py:95-119 | raw segments come first at aligned offsets, then each run's segment with the run compressed in the dump; if the loader gets every run back the file loads to exactly the pages |
| Recompression.PackedContent | ckpt/cl.c:9-45 | the loader gets a compressed run back if and only if its segment fits the buffer and is not as long as the pages, or is as long, aligned and the codec changed nothing |
| Recompression.Compress | ckpt/compress.py:39-119 | for a lossless codec and any limits the new image, whose segments share no page and are as long as the limits allow, loads to the memory of the old one if and only if the loader gets every compressed run back; below ratio 1 and length 4096 no compressed segment is as long as its pages, and up to 0.5 and 2048 all are got back |
| Recompression.RatioTooHigh | ckpt/compress.py:33-34 | with ratio 1 a lossless codec gives a file that loads, but to the wrong bytes |
| LoaderBases.FindBase | ckpt/main.c:89-96 | the base found is the least one from CL_BASE on at which the loader overlaps no segment, even if segments overlap each other |
| LoaderBases.PlaceLoader | ckpt/main.c:85-100 | reports failure if and only if no base between CL_BASE and CL_TOP is free, and otherwise the least free one |
| LoadOrders.LoadMakes | ckpt/cl.c:9-46 | segments that share no page load exactly if each of them does, to exactly their pages |
| LoadOrders.AnyOrder | ckpt/main.c:122 | such segments load to the same memory in any order |
| LoadOrders.Launch | ckpt/main.c:86-129 | with both sorts the loader finds the first free place unless there is none, and maps the memory the file means, no page of it under the loader |
| LoadOrders.ClashIsNotClear | ckpt/main.c:91-96 | the loader clashes with a segment exactly where it is in the way of a page |
| EndToEnd.LoadDumped | ckpt/main.c:86-129 | the file of a pass puts its image back into memory, with the loader at the first place clear of its pages, unless there is no such place |
| EndToEnd.LoadRecompressed | ckpt/compress.py:39-119 | recompressed with any limits, the loader finds the first place clear of the pages of the image unless there is none; the file is made of exactly those pages, and they are back in memory exactly if there is room and the loader gets every compressed run back |
| EndToEnd.RunCheckpoint | ckpt/replay.c:48-86 | from the file of a pass, recompressed within the guaranteed limits, unless its pages leave no room for the loader: in memory that has the image and is otherwise as before, the run returns the recorded values, applies exactly the recorded writes and checks the stores |
| CodecGenerators.GenerateMap | src/app/rv-meta.cc:110-123 | a bit is in the mask if and only if some mask covers it, and in the match value if and only if such a mask's value has it set |
| CodecGenerators.SelectBits | src/app/rv-meta.cc:141-161 | the bits selected are exactly the open ones that most opcodes constrain, from the highest down; none if and only if no bit is open |
| CodecTrees.RowsCount | src/app/rv-meta.cc:141-150 | the rows of a bit are the positions in the list whose opcode has the bit in its mask |
| CodecTrees.ValueBit | src/app/rv-meta.cc:163-175 | the bits of a value are the selected bits of the word, the first one selected at the top |
| CodecGenerators.FileOpcodes | src/app/rv-meta.cc:163-196 | the values are ascending and distinct, and each has exactly the opcodes with that value, in list order |
| CodecGenerators.UnmarkedDrops | src/app/rv-meta.cc:198-212 | the unmarked mask bits of a child's list are strictly fewer than its parent's, so the recursion ends |
| CodecGenerators.GenerateCodecNode | src/app/rv-meta.cc:139-213 | terminates, and despite the shared marks the tree is the one that the opcodes' masks determine |
| CodecTrees.DecodesUnlessShadowed | src/gen/gen-switch.cc:30-122 | a word matching an opcode ends in a leaf listing it if and only if nowhere on the way the opcode is under DEFAULT while the word's selected bits equal a listed value |
| CodecTrees.SeparatedOpcodes | src/app/rv-meta.cc:163-193 | two opcodes under different explicit values match no common word |
| CodecTrees.FoundAgrees | src/gen/gen-switch.cc:30-122 | a word that finds an opcode agrees with it on every bit compared on the way |
| CodecTrees.EveryBitAccounted | src/app/rv-meta.cc:141-203 | each bit of an opcode's mask is marked before, compared on the way, or lost under DEFAULT |
| CodecExactness.OnlyMatchesFound | src/app/rv-meta.cc:139-213 | every word that finds an opcode matches it if and only if all unlisted values at the nodes that file it under DEFAULT agree with it, or some such node lists every value |
| CodecExactness.LosslessIsGuarded | src/app/rv-meta.cc:176-203 | an opcode of which every mask bit is marked before or compared on its way is one that only matching words find |
| CodecExactness.NeverExactly | src/app/rv-meta.cc:139-213 | no word finds an opcode if and only if a node on its way files it under DEFAULT and lists every value |
| CodecExactness.AllMatchesFound | src/app/rv-meta.cc:139-213 | every word that matches an opcode finds it if and only if no listed value at a node that files it under DEFAULT agrees with it |
| CodecExactness.DecodeExact | src/app/rv-meta.cc:139-213 | an opcode is found by exactly the words that match it if and only if both conditions hold |
| CodecExactness.DecodeGuarded | src/app/rv-meta.cc:139-213 | under the first condition a word finds the opcode if and only if it matches and the opcode is not shadowed |
| CodecExactness.ExplicitOpcodesDecode | src/app/rv-meta.cc:139-213 | an opcode with an explicit value at every node is found by exactly the words that match it |
| CodecTrees.LeafInOrder | src/app/rv-meta.cc:163-193 | the leaf of a word lists exactly the opcodes that go its way, none lost or repeated, in list order |
| CodecTrees.LeavesPartition | src/app/rv-meta.cc:163-212 | the leaves together hold the opcode list, each opcode as often as it occurs in the list |
| CodecGenerators.UntestedBit | src/app/rv-meta.cc:176-203 | for three opcodes, a word decodes to one that it does not match, because a bit was marked while the opcode was under DEFAULT; neither condition of exactness holds for it |
| Multiplication.ByHalvesExact | src/asm/alu.h:18-28 | no partial sum loses a carry: the two words are the exact double-width product |
| Multiplication.MulhuExact | src/asm/alu.h:12-31 | the result is the upper word of the unsigned product, for every operand pair and width |
| Multiplication.MagnitudeIsAbs | src/asm/alu.h:43-46 | complement, increment and xor give the absolute value, the most negative value included |
| Multiplication.FixSignExact | src/asm/alu.h:59-63 | borrow and xor turn the product of magnitudes into the signed product, a zero low word included |
| Multiplication.MulhExact | src/asm/alu.h:35-66 | the result is the upper word of the signed product, rounded down |
| Multiplication.MulhsuExact | src/asm/alu.h:70-96 | the result is the upper word of the signed by unsigned product, rounded down |
| Multiplication.ShiftAdd | src/app/test-mul.cc:272-296 | the shift-and-add loop gives the exact product in twice the bits, no sum or shift overflowing |
| Multiplication.Mulu | src/app/test-mul.cc:248-296 | hi:lo is the exact product at every level of the width recursion |
| Multiplication.MulWords | src/app/test-mul.cc:301-333 | hi:lo is the exact signed product at every width |
| Multiplication.MulsuWords | src/app/test-mul.cc:338-367 | hi:lo is the exact signed by unsigned product at every width |
| MatrixInverses.Solver.Expand | example/foo.c:19-29 | from the determinants of the sets with one column fewer, the alternating sum is the determinant of the last rows on the columns of x |
| MatrixInverses.Solver.Dp | example/foo.c:17-34 | every column set of the given size that extends the choice so far, and no other entry, is set to its determinant |
| MatrixInverses.ExtendsEither | example/foo.c:31-33 | the two recursive calls visit each remaining set exactly once |
| MatrixInverses.Solver.FillTable | example/foo.c:48-49 | after the size loop each column set's entry is its Laplace determinant, whatever stale entries the table held |
| Laplace.SwapFirst | example/foo.c:19-29 | the determinant changes sign when the first two rows are swapped |
| Laplace.DetOfIdentity | example/foo.c:17-34 | the determinant of the identity matrix of any size is 1 |
| Laplace.TwiceIsZero | example/foo.c:19-29 | the determinant of a matrix with the same row twice is zero |
| Laplace.DetDropped | example/foo.c:40-47 | leaving a column out of the column set is the same as taking it out of every row and renumbering |
| Laplace.RowTimesCofactors | example/foo.c:36-56 | a row times the cofactors of row i is the determinant for row i itself, and zero for any other row |
| MatrixInverses.Solver.CopyMinor | example/foo.c:40-47 | the work matrix holds the matrix without row i and column j |
| MatrixInverses.Solver.Adjoint | example/foo.c:36-56 | entry (j, i) is the signed determinant without row i and column j, with the table reused for the smaller matrices |
| MatrixInverses.TimesAdjoint | example/foo.c:36-56 | a matrix times its adjoint is its determinant times the identity |
| LaplaceColumns.ColumnExpands | example/foo.c:36-56 | the determinant can be expanded along any column |
| LaplaceColumns.EqualColumns | example/foo.c:36-56 | a determinant with two equal columns is zero |
| LaplaceColumns.ColumnTimesCofactors | example/foo.c:36-56 | a column times the cofactors of column j is the determinant for column j itself, and zero for any other column |
| MatrixInverses.AdjointTimes | example/foo.c:36-56 | the adjoint times the matrix is the determinant times the identity |
| MatrixInverses.Solver.Inverse | example/foo.c:58-74 | returns -1, writing nothing, if and only if the determinant is within E of zero; otherwise the result is the inverse on both sides, even when it overwrites the matrix |
| Linking.ForwardIsNearest | src/asm/assembler.cc:196-204 | a forward reference finds the nearest label of that number after the place, and none only if there is none |
| Linking.BackwardIsNearest | src/asm/assembler.cc:206-214 | a backward reference finds the nearest label of that number up to the place, and none only if there is none |
| Linking.LocalNames | src/asm/assembler.cc:216-231 | a decimal number followed by f or b is looked up among the later or the earlier labels of that number, whatever its digits |
| Linkers.Assembler.LookupForward | src/asm/assembler.cc:196-204 | the scan with its flag finds the first label after the place with that number |
| Linkers.Assembler.LookupBackward | src/asm/assembler.cc:206-214 | the scan that stops early finds the last label up to the place with that number |
| Linkers.Assembler.LayOut | src/asm/assembler.cc:445-448 | every section starts where the one before it ends, sizes unchanged |
| Linking.SectionsApart | src/asm/assembler.cc:445-448 | no byte of a laid-out section has the offset of a byte of another |
| Linkers.Assembler.Relocate | src/asm/assembler.cc:337-440 | refuses exactly when the label, or for a lower half its pair or the pair's symbol, is missing, and then no instruction or word changes; otherwise the instruction is patched for its target and nothing else is written |
| Linking.DoneStays | src/asm/assembler.cc:449-454 | a later relocation leaves what earlier ones patched |
| Linkers.Assembler.Link | src/asm/assembler.cc:442-458 | sections follow each other; every relocation that can be resolved in place order is applied and still applied at the end unless another one stands on its second instruction; the count returned is the number of the others, zero if and only if all can be resolved; every field and word that no applied relocation writes is as before |
| PcRelative.HalvesFit | src/asm/assembler.cc:374-411 | for any distance the lower half is in [-2048, 2047] and both halves survive their instruction fields |
| PcRelative.HalvesReach | src/asm/assembler.cc:374-411 | address, upper and lower half add up to the target if and only if the distance is in [-2^31 - 0x800, 2^31 - 0x800), despite unsigned wrap and truncation to int |
| PcRelative.JumpReaches | src/asm/assembler.cc:357-361 | a jump reaches its target if and only if the distance is even and in [-2^20, 2^20) |
| PcRelative.BranchReaches | src/asm/assembler.cc:357-361 | a branch reaches its target if and only if the distance is even and in [-2^12, 2^12) |
| LinkedCode.CallReaches | src/asm/assembler.cc:404-425 | a linked auipc/jalr pair reaches its symbol if and only if it is near enough |
| LinkedCode.PairReaches | src/asm/assembler.cc:374-403 | a linked auipc and the instruction that names it reach the auipc's symbol if and only if it is near enough to the auipc |
| LinkedCode.PairFound | src/asm/assembler.cc:386-392 | the lower half finds its auipc if and only if their section starts at address zero |
| LinkedCode.PairMissed | src/asm/assembler.cc:386-401 | with the section at address 4 a lower half takes itself for its pair, and its value is not the one that reaches the symbol |
| LinkedCode.AbsoluteReaches | src/asm/assembler.cc:362-373 | lui and lower half give the symbol's address if and only if it is near enough to zero |
| LinkedCode.BranchesReach | src/asm/assembler.cc:357-361 | a linked jump or branch reaches its symbol if and only if the distance is even and within its field |
| LinkedCode.WordsHold | src/asm/assembler.cc:426-431 | a linked word holds the address of its symbol, cut to its width |

## Left out

- The code of near, far and jump calls: their generators are functions of which only the lengths are known, so
  that trampolines save and restore registers as intended is not proved.
- Checkpoints.Checkpoint.ProcessOnce: after a failure it says why, but nothing about the partly rewritten pages; the replay table is made first, which nothing can observe.
- Integer widths of the image: Python integers are unbounded, and `to_bytes` overflow is excluded by the precondition that recorded values fit 64 bits; the 32-bit size and length fields of the loader's cfg entries and 64-bit address wrap in `main.c` are not modelled.
- Page bitmaps are sets of offsets and opcode masks are sets of bit numbers, instead of machine integers.
- Loaders.Process.MapPages: the memory is page-granular, mmap, lseek and read only fail where the file is too short, unaligned or over the buffer.
- EndToEnd.RunCheckpoint: the memory outside the image's pages is arbitrary, the compression limits are those that guarantee a loadable file, and the run is the list of stores that `ReplayRuns.Run` takes.
- Passes.Process: the rerun itself is a parameter, its output; the verifying run of the result and the files other than cfg and dump are not modelled.
- Recompression.Compress: page addresses are kept as page numbers, so segments must lie on pages as the loader's mmap demands.
- CodecGenerators.GenerateCodecNode: the node is returned as a value instead of being filled in place; the marks are updated in place, and on entry all opcodes of a list carry the same marks, as they do in every call from generate_codec.
- The choice among several opcodes in one leaf by extension and register width, and the printing of the switch.
- ReplayRuns.Run: the program between two calls is a list of stores, and the head register is handed over directly instead of through near_buf.
- Cycle and instruction counters, log output, icache flushes and process exit.
- The text protocol of the rerun: `Merging.Merge` takes parsed lines, and a break call without return value counts as zero.
- MatrixInverses.Solver.Inverse: arithmetic is exact, so rounding of floats is not covered.
- Linkers.Assembler.Relocate: instruction words are represented by the immediate the machine reads from them, so the bit layouts of the encoders are not covered, and the second instruction of a call is taken to be 4 bytes behind the first.
- Linkers.Assembler.Link: symbols of pairs are not absolute (the code would index past its sections), and relocated instructions or words that overlap in part are not modelled.
- `load_imm`, `balign`, the instruction encoders and the register tables.
- `make`, subprocesses, log parsing, `collect-simpoints.py`, and the basic-block vectors of `dump_bbv`.
