# mojoelf in Dafny

This project models the core of mojoelf and proves properties of the model.
mojoelf loads Linux ELF shared objects from a memory buffer. Its companion
macelf runs Linux binaries on Mac OS X behind a table of trampolines.

The model covers four parts.

- **The ELF loader of `mojoelf.c`** (modules `ElfHeader`, `ElfLayout`,
  `ElfDynamic`, `ElfLoader`).
  - The header, program-header and section-header checks.
  - The program-header scan and page rounding.
  - Placement of each PT_LOAD segment in a zero-filled image.
  - The mprotect requests made for segments.
  - The 24-slot dynamic-table index.
  - The string-table checks and the dependency walk.
  - The consume-once dlerror slot, `MOJOELF_dlsym`, and `MOJOELF_dlclose`
    as a log of resource actions.
  - Both x86 targets (i386 and x86-64), selected by an `Arch` parameter.
  - The operating system (calloc, mmap, mprotect, dlopen) is a value of type
    `Env` that says which calls succeed. `MOJOELF_dlopen_mem` is a `Loader`
    method, and every open it performs ends in failure, as in the code.
- **The chained hash table of `macelf/hashtable.c`** (`StringHash`,
  `HashTables`).
  - A class over an array of 0xFFFF buckets, with a ghost map as its
    abstraction.
  - Move-to-front lookup, prepending insert, unlinking remove, the two
    iterators, and destroy.
  - The djb-xor string hash, with `char` signedness as a parameter.
- **The resolver of `macelf/macelf.c`** (`Resolver`): the global symbol table
  built on the hash table, with its init and deinit lifecycle, and the
  `build_trampolines` chain of inserts.
- **The translation helpers of `macelf/mactrampolines.c`**.
  - The "translate known bits, fail on leftovers" flag mappers for open,
    open64, mmap and send/recv (`FlagMap`, `LinuxFlags`).
  - The `/etc/mtab` emulation (`Mtab`, `CText`): the option-string builder,
    the mount lines, the `mtab_read` cursor, and `getmntent` over
    `fgets`/`strtok`.
  - The sockaddr header rewrite (`Sockaddr`).
  - The error, socket-option and locale switches (`CodeMaps`, `Switch`).
  - The pthread-key registry (`PthreadKeys`).

Mac-side constants are abstract parameters, and a validity predicate says
they are distinct (or disjoint single bits). Linux-side constants are the
literals `mactrampolines.c` defines.

## Model

| member | source | states |
|---|---|---|
| Bytes.ReadLE | mojoelf.c:96-143 | a little-endian field of n bytes read from the buffer is below 256^n, so every decoded struct field fits its C width |
| Bytes.FitsAsWrittenAgrees | mojoelf.c:148 | the wrapping bound `off + len > bufsize` in a word accepts every range the exact bound accepts, and is the exact bound when the sum does not wrap |
| ElfHeader.WordModulus | mojoelf.c:103-104 | uintptr arithmetic wraps at 2^32 on i386 and at 2^64 on x86-64 |
| ElfHeader.DecodeSection | mojoelf.c:131-143 | the section-header fields read are word-sized or 32-bit values |
| ElfHeader.DecodeProgram | mojoelf.c:114-129 | program-header fields decode to their widths; p_flags is at its per-architecture position |
| ElfHeader.ValidateProgram | mojoelf.c:146-153 | as intended (the corrected member; the uintptr sum is ValidateProgramAsWritten): a program header is accepted iff p_offset + p_filesz <= bufsize and p_filesz <= p_memsz; the bounds error comes first, and the size error only for headers within bounds |
| ElfHeader.ValidateSection | mojoelf.c:155-163 | as intended (the corrected member; the uintptr sum is ValidateSectionAsWritten): a section is accepted iff its bytes lie inside the buffer and, when maxstr > 0, sh_name <= maxstr; out-of-bounds gives the bounds error |
| ElfHeader.ValidateProgramAsWritten | mojoelf.c:146-153 | as written, with p_offset + p_filesz wrapping at the word modulus: it accepts whatever the exact check accepts, and agrees with it when the sum does not wrap |
| ElfHeader.ValidateSectionAsWritten | mojoelf.c:155-163 | the same for sh_offset + sh_size |
| ElfHeader.SectionNameUncheckedWithoutLimit | mojoelf.c:160-161 | with maxstr 0 the name index is never rejected |
| ElfHeader.FirstFailedCheck | mojoelf.c:165-222 | finds the first failing check from k on: every earlier check passes, and None means all pass |
| ElfHeader.ValidateHeader | mojoelf.c:165-225 | None exactly for an acceptable header; otherwise the message of a failing check that every earlier check in the fixed order passed |
| ElfHeader.HeaderOkMeans | mojoelf.c:165-202 | an accepted header has at least 64 bytes and the exact magic, class, data order, versions, OSABI, ABI version, ET_DYN, machine and entry sizes; both header tables lie inside the buffer; e_shstrndx is 0 or below e_shnum |
| ElfHeader.HeaderOkStringTable | mojoelf.c:199-222 | when e_shstrndx != 0, the named section header and its bytes lie in the buffer, it is SHT_STRTAB, and a non-empty table starts and ends with NUL |
| ElfHeader.ShortBufferFailsFirst | mojoelf.c:168-169 | any buffer under 64 bytes fails with "Not enough data" |
| ElfHeader.BadMagicFailsSecond | mojoelf.c:170-171 | with 64 bytes, a wrong magic fails with "Not an ELF file" whatever follows |
| ElfHeader.OnlySharedObjectsAccepted | mojoelf.c:182-183 | a header whose e_type is not 3 is never accepted |
| ElfHeader.WrappedTableBoundPassesAsWritten | mojoelf.c:194-195 | the C sum wraps, so a table ending past the address space passes as written while the exact bound rejects it |
| ElfHeader.HeaderCheckAsWrittenAgrees | mojoelf.c:194-222 | each check as written (table bounds and the string section's bound with uintptr sums) passes whenever the exact one does, and is the exact one when no sum of the header wraps |
| ElfHeader.FirstFailedCheckAsWritten | mojoelf.c:165-222 | the first failing check as written from k on; None iff every such check passes |
| ElfHeader.ValidateHeaderAsWritten | mojoelf.c:165-225 | as written: None exactly when every check, with wrapping sums, passes |
| ElfHeader.ValidateHeaderAsWrittenAgrees | mojoelf.c:165-225 | the compiled validator accepts every header the exact one accepts, and returns the same when no sum wraps |
| ElfHeader.HeaderReadOutsideAsWritten | mojoelf.c:199-222 | as written: the first read past the buffer that tests 16-19 make once tests 0-15 pass (the string-table section header at e_shoff + e_shstrndx * e_shentsize, or the table's first or last byte); each reported offset lies outside the buffer, and one is reported only when e_shstrndx != 0 and tests 0-15 pass |
| ElfHeader.HeaderReadsInside | mojoelf.c:194-222 | when no sum of the header wraps, the validator reads only inside the buffer |
| ElfHeader.FirstFailedAt | mojoelf.c:165-222 | a header whose check k fails after all earlier ones pass is rejected with check k's message |
| ElfHeader.WrappedHeaderFailsAt13 | mojoelf.c:165-195 | the header with e_phoff 2^64 - 56 passes every check before the program-table bound and fails that one exactly |
| ElfHeader.WrappedHeaderPassesAsWritten | mojoelf.c:165-222 | the same header passes every check as written |
| ElfHeader.WrappedHeaderAcceptedAsWritten | mojoelf.c:194-195 | an x86-64 header with one program header at e_phoff 2^64 - 56 is accepted by the compiled validator and rejected with "Bogus ELF program header offset/count" by the exact one |
| ElfLayout.Programs | mojoelf.c:359-360 | the program-header table is e_phnum entries, entry i decoded at e_phoff + i·e_phentsize inside the buffer |
| ElfLayout.ScanProgramHeaders | mojoelf.c:359-378 | the scan loop returns the scan function's result over all headers |
| ElfLayout.FailurePersists | mojoelf.c:362-363 | once a header fails the scan, later headers do not change the failure |
| ElfLayout.ScanOkMeans | mojoelf.c:359-378 | after a clean scan every header is valid; base is the lowest non-empty PT_LOAD address (or the initial value) and at most every load address; maxEnd is the highest load end (0 iff there is no load); dynamic is the one PT_DYNAMIC header |
| ElfLayout.ScanAsWrittenAgrees | mojoelf.c:359-378 | when no program header's p_offset + p_filesz or p_vaddr + p_memsz reaches the word modulus, the compiled scan (with `endaddr` wrapping, mojoelf.c:366) is the exact scan |
| ElfLayout.ScanStepAsWrittenAgrees | mojoelf.c:362-377 | one compiled scan step is the exact one for a header whose sums do not wrap |
| ElfLayout.WrappedEndHidesLoadAsWritten | mojoelf.c:366-381 | a PT_LOAD at 2^64 - 4096 of 4096 bytes plus a PT_DYNAMIC: the compiled end wraps to 0, so mmaplen stays 0 ("No loadable pages") although the header is loadable; the exact scan ends at 2^64 |
| ElfLayout.WrappedEndOverrunsAsWritten | mojoelf.c:366-411 | loads at 0x2000 (0x1000 bytes) and 0x3000 (0x2000 file bytes, 2^64 - 0x2000 memory) in a 0x2000-byte file: the compiled scan keeps end 0x3000 and maps 0x2000 bytes, while the second memcpy reaches offset 0x3000 |
| ElfLayout.ScanFailMeans | mojoelf.c:359-378 | a failed scan failed at the first header that is invalid or is a second PT_DYNAMIC; every header before it scanned cleanly |
| ElfLayout.SecondDynamicFails | mojoelf.c:372-377 | a valid second PT_DYNAMIC fails the scan with "Multiple PT_DYNAMIC tables" at its index |
| ElfLayout.RoundLayout | mojoelf.c:386-388 | the rounded base is page-aligned and within a page below base; the length is page-aligned and exceeds maxEnd - base by at most a page, and by a full page when the span is already aligned |
| ElfLayout.RoundLayoutAsWrittenAgrees | mojoelf.c:386-388 | the compiled rounding, with `mmaplen -= base` and the page addition wrapping, equals RoundLayout when base <= maxEnd and maxEnd plus a page stays below the word modulus |
| ElfLayout.ProtectSkippedIffReadWrite | mojoelf.c:408-412 | mprotect is skipped exactly when p_flags & 7 is PF_W PF_R, the protection of the mapping |
| ElfLayout.CopyAt | mojoelf.c:411 | the memcpy, written as the old bytes before dst, the data, then the old bytes after it: the length is kept, byte dst + i is data[i], and every byte outside [dst, dst + n) is unchanged |
| ElfLayout.UncoveredBytesZero | mojoelf.c:393-414 | a byte of the image that no placed segment's file bytes cover stays zero, including the [p_filesz, p_memsz) tails |
| ElfLayout.CoveredBytesFromFile | mojoelf.c:401-411 | a byte last covered by segment i holds the file byte at p_offset + (k - (p_vaddr - base)) |
| ElfLayout.PlaceSegment | mojoelf.c:411 | the array after the copy is the old contents with the data written at dst |
| ElfLayout.FirstProtectFailure | mojoelf.c:412-413 | a header from k on whose mprotect is requested and fails |
| ElfLayout.FirstProtectFailureMeans | mojoelf.c:412-413 | there is no first failure exactly when no request from k on fails, and no request fails before the first failure |
| ElfLayout.PlaceHeader | mojoelf.c:404-413 | one iteration places header i's file bytes and requests an mprotect iff it is a non-empty PT_LOAD that is not read-write |
| ElfLayout.LoadSegments | mojoelf.c:398-415 | the placement loop yields the image with segments 0..n placed and the mprotect calls up to the first failed one, or all of them |
| ElfDynamic.DecodeDyn | mojoelf.c:311-319 | d_tag and d_val are 32-bit; d_ptr is a word |
| ElfDynamic.DynEntries | mojoelf.c:442-443 | with an ElfDynTable entry of two words (DynEntrySize: a uint32 tag padded to a word, then the union), the table holds p_filesz / entry size entries, inside the buffer, from p_offset on |
| ElfDynamic.SignedTag | mojoelf.c:445 | the (int) cast: a value in the int range congruent to the tag modulo 2^32 |
| ElfDynamic.SlotOfAsWritten | mojoelf.c:445-459 | as written: a slot below 24 that is never 0 or 1, possibly negative |
| ElfDynamic.NegativeTagPassesAsWritten | mojoelf.c:445-455 | tag 0x80000000 passes `tag < MAX_DYNTABS` as slot -2^31 but indexes no slot in the intended reading |
| ElfDynamic.SlotOfAgreesInRange | mojoelf.c:445-459 | the intended slot (SlotOf: tags 2 to 23 in their own slot; none for DT_NULL, DT_NEEDED or a tag of 24 and up) is always in range and agrees with the code wherever the code's slot is non-negative |
| ElfDynamic.EmptyIndex | mojoelf.c:438-440 | the memset: 24 empty slots, no DT_NEEDED counted |
| ElfDynamic.IndexPrefix | mojoelf.c:443-459 | a clean walk of n entries keeps 24 slots, each holding an index below n; a failure is at an index below n |
| ElfDynamic.IndexOkSlots | mojoelf.c:443-459 | with the intended slots of SlotOf, after a clean walk slots 0 and 1 are empty, every filled slot t holds an entry tagged t, and every indexed entry sits in its tag's slot |
| ElfDynamic.IndexStepSlots | mojoelf.c:455-459 | one clean step fills only the slot of an indexed tag, which was empty |
| ElfDynamic.IndexOkCount | mojoelf.c:449-452 | a clean walk counts exactly the DT_NEEDED entries |
| ElfDynamic.IndexOkNoDuplicate | mojoelf.c:457-458 | a clean walk saw no indexed tag twice |
| ElfDynamic.IndexFailMeans | mojoelf.c:457-458 | the walk fails iff an indexed tag repeats, then at the second occurrence of the first tag to repeat |
| ElfDynamic.IndexFailurePersists | mojoelf.c:457-458 | once the walk has failed, later entries change nothing |
| ElfDynamic.IndexDynamicTable | mojoelf.c:438-459 | the loop over the 24-slot array returns the walk's slots and DT_NEEDED count, or the index of the failing duplicate with the count up to it |
| ElfDynamic.CheckDynStrTab | mojoelf.c:462-471 | "No dynamic string table" iff DT_STRTAB is missing; "No dynamic string table size" iff only DT_STRSZ is missing; success iff both exist and the table's first byte is in the buffer and is NUL |
| ElfDynamic.CheckDynStrTabAsWritten | mojoelf.c:462-471 | as written, a pass agrees with the checked version; otherwise the read is at an offset outside the buffer |
| ElfDynamic.UncheckedStrTabReadsOutside | mojoelf.c:469-470 | an indexable table with d_ptr 4096 over a 16-byte buffer is read outside it as written, and rejected by the checked version |
| ElfLoader.DepCloses | mojoelf.c:258-264 | every logged action of the dependency walk is a dlclose |
| ElfLoader.DepClosesRelease | mojoelf.c:258-264 | the dlcloses release exactly the dependencies held in the first n slots and acquire nothing |
| ElfLoader.DepClosesInOrder | mojoelf.c:260-264 | the live dependency i is closed at position "live slots before i", so closes come in index order, one per non-NULL slot |
| ElfLoader.NewHandleHoldsOnlyItself | mojoelf.c:353-356 | the handle calloc gives, with MAP_FAILED as its mapping (NewHandle), holds only its own memory, and closing it is the single free of the handle |
| ElfLoader.Teardown | mojoelf.c:247-280 | NULL gives no action; otherwise the handle is freed last and munmap occurs iff the handle is mapped |
| ElfLoader.DepTeardown | mojoelf.c:258-266 | the dependency part consists of dlcloses and the free of the array |
| ElfLoader.SymbolTeardown | mojoelf.c:272-277 | the symbol part consists of name frees and the free of the array |
| ElfLoader.TeardownReleasesHeld | mojoelf.c:247-280 | closing a handle releases exactly the resources it holds and acquires none |
| ElfLoader.DepTeardownReleases | mojoelf.c:258-266 | the dependency part releases exactly the held dependencies and their array |
| ElfLoader.RegionTeardownReleases | mojoelf.c:269-270 | the munmap releases exactly the mapping the handle holds |
| ElfLoader.FirstMatch | mojoelf.c:293-297 | the index of the first symbol named sym; None iff none has that name |
| ElfLoader.FailLabelAsWritten | mojoelf.c:526-529 | as written, the fail: label writes through NULL exactly when no handle was allocated |
| ElfLoader.ShortBufferWritesNullAsWritten | mojoelf.c:345-346 | a short buffer fails validation before allocation, and the label then writes through NULL |
| ElfLoader.FailLabel | mojoelf.c:526-529 | as intended: no handle gives no action; a handle gets its teardown, ending with its free |
| ElfLoader.FailLabelReleasesHeld | mojoelf.c:526-529 | the intended label releases exactly what the handle holds |
| ElfLoader.StringTableSetupAsWritten | mojoelf.c:349-351 | as written, the setup either reads a section header past the buffer or computes a word-sized maxstr |
| ElfLoader.WordMinusOne | mojoelf.c:350 | sh_size - 1 in a uintptr: 0 wraps to the largest word |
| ElfLoader.EmptySectionTableReadsOutsideAsWritten | mojoelf.c:349-351 | an accepted header with no sections reads section header 0 past the buffer |
| ElfLoader.EmptyStringTableUnderflowsAsWritten | mojoelf.c:350 | a zero-sized section 0 gives maxstr = 2^64 - 1 on x86-64; the wrap is inert, since maxstr is read only by the section walk compiled out under `#if 0` (mojoelf.c:417-435) |
| ElfLoader.StringTableLimit | mojoelf.c:349-351 | as intended: a limit only when e_shstrndx names a section, and then the index of its last NUL |
| ElfLoader.LoadDepsPrefix | mojoelf.c:497-514 | the dependency array keeps its allocated size and the count never exceeds it |
| ElfLoader.LoadDepsGuardIdle | mojoelf.c:504-511 | with the array as large as the DT_NEEDED count, the count is below the size whenever a DT_NEEDED is reached, so the model's bound test never fires (the C has none) |
| ElfLoader.LoadDepsShape | mojoelf.c:497-514 | with an array as large as the DT_NEEDED count, slots 0..count-1 are filled and later ones NULL; without a failure each DT_NEEDED is loaded |
| ElfLoader.LoadDepsAcquire | mojoelf.c:504-511 | the dlopen calls acquire exactly the dependencies recorded in the array |
| ElfLoader.LoadDepsKeeps | mojoelf.c:501-513 | an entry that opens nothing leaves array, count and log unchanged |
| ElfLoader.LoadDepsOpenStep | mojoelf.c:504-511 | an opening step keeps "acquired = recorded" |
| ElfLoader.LoadDepsRelease | mojoelf.c:497-514 | the walk releases nothing |
| ElfLoader.FailedLoadPersists | mojoelf.c:508-509 | after a failed dlopen, later entries change nothing |
| ElfLoader.DepsStage | mojoelf.c:486-519 | the stage ends with "Couldn't load dependency" or "write me", and keeps a dependency array iff some DT_NEEDED exists |
| ElfLoader.AfterIndex | mojoelf.c:462-495 | corrected (the checked CheckDynStrTab): a failed string-table check stops the open with its message and no action; actions happen only after the checks pass and, with dependencies, after a successful array allocation |
| ElfLoader.ProgramTable | mojoelf.c:359 | the headers of an accepted header have 32-bit flags and word-sized addresses, none above the initial base (uintptr) -1 of mojoelf.c:335 (Top, one below the word modulus) |
| ElfLoader.AfterMap | mojoelf.c:384-398 | a mapped handle whose length is page-aligned and covers base through maxEnd |
| ElfLoader.AfterProtect | mojoelf.c:393-414 | the mmap is the first action, and the handle is mapped with that length |
| ElfLoader.AfterAlloc | mojoelf.c:358-514 | actions happen iff the region is mapped |
| ElfLoader.ScanOkFinds | mojoelf.c:380-383 | a clean scan found loadable pages iff some header is a non-empty PT_LOAD, and a dynamic table iff some header is PT_DYNAMIC |
| ElfLoader.ScanStageErrors | mojoelf.c:359-396 | the scan's error, then "No loadable pages", "No PT_DYNAMIC table" and "mmap failed" stop the open in that order before anything is acquired; otherwise the region is mapped |
| ElfLoader.OpenOutcome | mojoelf.c:321-530 | the corrected program (exact ValidateHeader, intended FailLabel and SlotOf, CheckDynStrTab with its own "Dynstrtab outside the file", no string-table setup): a rejected header gives its message and no action; a failed handle allocation gives "Out of memory"; otherwise the handle is allocated first and freed last |
| ElfLoader.DepsStageHolds | mojoelf.c:486-514 | what the handle gains in the dependency stage is exactly what the stage acquires; nothing is released |
| ElfLoader.AfterIndexHolds | mojoelf.c:462-514 | corrected (the checked CheckDynStrTab): the same accounting from the string-table checks on |
| ElfLoader.AfterPlaceHolds | mojoelf.c:436-514 | the same accounting from the dynamic index on |
| ElfLoader.AfterMapHolds | mojoelf.c:384-514 | after the mmap the handle holds its memory plus exactly what was acquired |
| ElfLoader.AfterProtectHolds | mojoelf.c:393-514 | the same accounting from the placement loop on |
| ElfLoader.ProtectFailHolds | mojoelf.c:412-413 | a failed mprotect leaves the handle holding its memory and the region only |
| ElfLoader.ProtectPassHolds | mojoelf.c:398-514 | with every mprotect passing, the rest of the open adds exactly what it acquires |
| ElfLoader.AfterAllocHolds | mojoelf.c:358-514 | from the allocation on, the handle holds its memory plus exactly what was acquired |
| ElfLoader.OpenReleasesEverything | mojoelf.c:321-530 | every open (they all fail) releases everything it acquired: handle, mapping, dependency array and each dependency |
| ElfLoader.Loader.SetDlerror | mojoelf.c:86 | the slot holds the message; the log is unchanged |
| ElfLoader.Loader.Dlerror | mojoelf.c:88-93 | returns the last message and empties the slot, so a second call returns NULL |
| ElfLoader.Loader.Dlsym | mojoelf.c:282-301 | a NULL handle gives NULL and "Bogus library handle"; otherwise the address of the first symbol with that name, or NULL and "Symbol not found" |
| ElfLoader.Loader.CloseDeps | mojoelf.c:257-266 | logs the dlclose of each non-NULL dependency in order, then the free of the array |
| ElfLoader.Loader.FreeSymbols | mojoelf.c:272-277 | logs one free per symbol name in index order (SymbolFrees), then the free of the array |
| ElfLoader.Loader.Dlclose | mojoelf.c:247-280 | logs exactly the handle's teardown (nothing for NULL); the dlerror slot is unchanged |
| ElfLoader.Loader.Fail | mojoelf.c:524-529 | sets the message and logs the intended fail: label |
| ElfLoader.Loader.LoadDependencies | mojoelf.c:497-514 | the loop yields the walk's array, count and failure flag and logs its actions |
| ElfLoader.Loader.AllocAndLoadDeps | mojoelf.c:486-514 | the method performs the dependency stage and logs its actions |
| ElfLoader.Loader.CheckAndLoad | mojoelf.c:462-514 | corrected (the checked CheckDynStrTab): the method performs the string-table checks and the rest, logging the actions |
| ElfLoader.Loader.IndexAndLoad | mojoelf.c:436-514 | corrected (the checked CheckDynStrTab): the method performs the dynamic index and the rest, logging the actions |
| ElfLoader.Loader.MapAndPlace | mojoelf.c:384-514 | corrected (the checked CheckDynStrTab): the method performs the stage after the mmap, logging the actions |
| ElfLoader.Loader.PlaceSegments | mojoelf.c:398-415 | the mprotect calls up to the first failure; the log gains exactly those calls, one entry each in call order (ProtectActions) |
| ElfLoader.Loader.ProtectAndLoad | mojoelf.c:393-514 | corrected (the checked CheckDynStrTab): the method performs the stage from the placement loop on, logging the actions |
| ElfLoader.Loader.MapAndLoad | mojoelf.c:358-514 | the method performs the stage after the allocation, logging the actions |
| ElfLoader.Loader.DlopenMem | mojoelf.c:321-530 | the corrected program, as OpenOutcome: never returns a handle; leaves the outcome's message in the slot and logs exactly its actions |
| HashTables.CalcHash | macelf/hashtable.c:33-36 | the bucket index is below table_len (0xFFFF), so every bucket access is in bounds |
| HashTables.CalcHashEven | macelf/hashtable.c:33-36 | the mask 0xFFFE yields only even buckets, the highest being 0xFFFE |
| HashTables.NextMatch | macelf/hashtable.c:44-64 | the first index at or after `from` whose key matches, with no match before it; None iff no later item matches |
| HashTables.FoundAt | macelf/hashtable.c:44-64 | in a chain with distinct keys, each item is the one found for its key |
| HashTables.MoveToFrontKeeps | macelf/hashtable.c:51-58 | moving the match to the head keeps the items and the distinct keys, puts the match first and keeps the others in their relative order, and leaves every lookup unchanged |
| HashTables.MoveToFrontOrigin | macelf/hashtable.c:51-58 | item i of the moved chain is a named item of the old chain |
| HashTables.RemoveAtKeeps | macelf/hashtable.c:198-207 | unlinking one item removes that item only, makes its key find nothing and leaves every other lookup |
| HashTables.PrependFinds | macelf/hashtable.c:131-139 | the prepended item is found for its key and other lookups are unchanged |
| HashTables.ReplaceChain | macelf/hashtable.c:23-36 | replacing one bucket's chain by a valid chain for that bucket yields a valid table for the new map |
| HashTables.FindChainProps | macelf/hashtable.c:38-67 | find's chain holds the same items, with distinct keys, and finds the same values |
| HashTables.RemoveChainProps | macelf/hashtable.c:190-214 | remove's chain holds a sub-multiset of the items, finds nothing for the key and the same for others |
| HashTables.FindChainKeeps | macelf/hashtable.c:38-67 | hash_find keeps the table valid for the same map and the same items |
| HashTables.PrependKeeps | macelf/hashtable.c:123-141 | inserting an absent key keeps the table valid for the map updated with that key |
| HashTables.RemoveChainKeeps | macelf/hashtable.c:190-214 | hash_remove keeps the table valid for the map without the key |
| HashTables.FlattenItems | macelf/hashtable.c:174-184 | the items of the first b buckets come from those buckets and carry the map's value |
| HashTables.FlattenDistinct | macelf/hashtable.c:174-184 | no key appears twice among the items of the first b buckets |
| HashTables.FlattenCovers | macelf/hashtable.c:174-184 | every key whose bucket is among the first b appears among their items |
| HashTables.DestroyNukesEachOnce | macelf/hashtable.c:170-188 | destroy's item order lists each stored key exactly once, with its value |
| HashTables.HashTable.Slot | macelf/hashtable.c:33-36 | a key's bucket is in bounds |
| HashTables.HashTable.constructor | macelf/hashtable.c:143-168 | a valid table with 0xFFFF empty buckets, an empty map, and nothing nuked |
| HashTables.HashTable.Create | macelf/hashtable.c:143-168 | NULL when either allocation fails; otherwise a fresh valid empty table |
| HashTables.HashTable.Find | macelf/hashtable.c:38-67 | found iff the key is present, with its value; the only change is move-to-front in the key's bucket |
| HashTables.HashTable.Iter | macelf/hashtable.c:69-93 | the next matching item after the cursor in the key's bucket, or NULL value and cursor; from a NULL cursor it finds what hash_find finds |
| HashTables.HashTable.IterKeys | macelf/hashtable.c:95-121 | the next item in bucket order after the cursor, and none skipped; nothing found iff no item comes after the cursor |
| HashTables.HashTable.Insert | macelf/hashtable.c:123-141 | 0 for a present key (after find's move-to-front), -1 on a failed malloc with nothing changed, otherwise 1 with the item at the head and the key mapped to the value |
| HashTables.HashTable.Remove | macelf/hashtable.c:190-214 | 1 iff the key was present; the key leaves the map, its first item is unlinked and nuked once, and nothing else changes |
| HashTables.HashTable.Destroy | macelf/hashtable.c:170-188 | every item, bucket by bucket and along each chain, is nuked once, and the table is gone |
| HashTables.HashTable.NukeBuckets | macelf/hashtable.c:174-184 | the bucket loop nukes the chains' items in order |
| HashTables.HashTable.NukeChain | macelf/hashtable.c:177-183 | the chain loop nukes each item in order |
| StringHash.StrLen | macelf/hashtable.c:234 | strlen: the first NUL's index, with no NUL before it |
| StringHash.StrLenOfTerminated | macelf/hashtable.c:234 | a terminated string's strlen is its length, whatever follows the NUL |
| StringHash.CharBits | macelf/hashtable.c:222 | the promoted char keeps its byte in the low 8 bits; the upper 24 are ones iff char is signed and the byte is >= 128 |
| StringHash.DjbStepMultiplies | macelf/hashtable.c:222 | each step is (hash · 33) xor c modulo 2^32 |
| StringHash.Djbxor | macelf/hashtable.c:218-224 | the loop computes the djb-xor hash from 5381 over the first len bytes |
| StringHash.HashHashString | macelf/hashtable.c:226-235 | the hash of the bytes before the first NUL |
| StringHash.KeymatchHashesAlike | macelf/hashtable.c:231-241 | strings that keymatch hash alike |
| StringHash.KeymatchIsEquality | macelf/hashtable.c:237-241 | on terminated strings keymatch (strcmp == 0) is equality |
| Resolver.BuiltSucceeds | macelf/mactrampolines.c:2748-2767 | the insert chain succeeds iff the names are distinct and every malloc succeeds, and then maps exactly those names to their addresses |
| Resolver.BuiltStep | macelf/macelf.c:24-27 | one more insert fails iff the name is present or its malloc fails, and otherwise adds it |
| Resolver.FailedBuildPersists | macelf/mactrampolines.c:2752-2766 | the && chain stops, so after a failure the build stays failed |
| Resolver.MacResolver.constructor | macelf/macelf.c:8 | resolver_symbols starts NULL |
| Resolver.MacResolver.Resolve | macelf/macelf.c:10-16 | the stored address, or NULL for an unknown name; the map is unchanged |
| Resolver.MacResolver.InsertSymbol | macelf/macelf.c:24-27 | true iff the name was absent and malloc succeeded, and then the name maps to the address; otherwise the map is unchanged |
| Resolver.MacResolver.BuildTrampolines | macelf/mactrampolines.c:2748-2767 | succeeds iff the whole insert chain does, and then the table is the built map |
| Resolver.MacResolver.Init | macelf/macelf.c:30-44 | 1 iff creation and every insert succeed, with every name registered; 0 leaves resolver_symbols NULL |
| Resolver.MacResolver.Deinit | macelf/macelf.c:19-22 | destroys the table, nuking each item once through a callback that frees nothing, and resets the global |
| FlagMap.ConvertRest | macelf/mactrampolines.c:454-459 | the flags left over are the input minus the known Linux bits |
| FlagMap.ConvertMac | macelf/mactrampolines.c:454-459 | with disjoint Linux masks, step-by-step translation adds exactly the reference selection |
| FlagMap.SelectedBit | macelf/mactrampolines.c:1341-1357 | with disjoint Mac masks, a Mac bit is set iff the flags meet its Linux mask |
| FlagMap.SelectedWithin | macelf/mactrampolines.c:2681-2705 | the translation holds only Mac bits of the table |
| FlagMap.MapFlags | macelf/mactrampolines.c:1341-1357 | the CVTFLAG/MAPFLAG sequence: the leftover is the unknown bits, and the Mac flags are the reference selection |
| LinuxFlags.OpenTableFacts | macelf/mactrampolines.c:1304-1357 | the open table knows exactly the listed Linux bits, and no two masks overlap |
| LinuxFlags.MmapTableFacts | macelf/mactrampolines.c:442-459 | the same for the mmap table |
| LinuxFlags.MsgTableFacts | macelf/mactrampolines.c:2669-2700 | the same for the MSG table |
| LinuxFlags.Open | macelf/mactrampolines.c:1325-1376 | EPERM iff an unknown flag remains (O_LARGEFILE pardoned on i386); otherwise open gets the translated flags, and the mode cut to 16 bits when O_CREAT is set |
| LinuxFlags.Open64 | macelf/mactrampolines.c:1378-1393 | with O_LARGEFILE added it always fails with EPERM outside i386; on i386 it equals open |
| LinuxFlags.LargeFileIgnored | macelf/mactrampolines.c:1359-1365 | O_LARGEFILE does not change the translated flags |
| LinuxFlags.OpenFlagTranslated | macelf/mactrampolines.c:1341-1357 | each Mac open bit is passed iff the flags hold its Linux bit |
| LinuxFlags.OpenRejectsUnmapped | macelf/mactrampolines.c:1367-1371 | O_DIRECT and O_NOATIME always fail with EPERM |
| LinuxFlags.Mmap | macelf/mactrampolines.c:450-468 | MAP_FAILED with ENOTSUP iff an unknown flag remains; otherwise mmap gets the translated flags |
| LinuxFlags.SendRecvFlagsToMac | macelf/mactrampolines.c:2681-2705 | -1 with EINVAL iff an unknown flag remains; otherwise only Mac MSG bits, so never -1 |
| LinuxFlags.RecvOrSend | macelf/mactrampolines.c:2707-2732 | fails without an OS call iff the flags do not translate; otherwise calls with the translation |
| CText.Word | macelf/mactrampolines.c:1545-1567 | the longest delimiter-free prefix |
| CText.UpToNul | macelf/mactrampolines.c:1490-1491 | a C string ends at its first NUL |
| CText.TokensPlain | macelf/mactrampolines.c:1545-1567 | strtok tokens are non-empty and free of the delimiter |
| CText.StrtokTokens | macelf/mactrampolines.c:1545-1567 | repeated strtok returns the tokens in order, then NULL |
| CText.StrtokStep | macelf/mactrampolines.c:1545-1567 | a call with k tokens consumed returns token k, or NULL iff all are consumed |
| CText.StrtokAt | macelf/mactrampolines.c:1545-1566 | strtok on the char buffer: NULL and the buffer unchanged when StrtokIn finds no token, otherwise the token's index, the saved pointer and the buffer with the ending delimiter overwritten by NUL |
| CText.StrtokInText | macelf/mactrampolines.c:1545-1566 | one in-buffer call does what Strtok does on the C string at the saved pointer: NULL exactly when Strtok finds nothing, else the returned pointer reads Strtok's token and the saved pointer reads the rest; only the delimiter ending the token is changed |
| CText.CStringStable | macelf/mactrampolines.c:1545-1566 | writing past the NUL that ends a C string leaves that string unchanged, so earlier tokens survive later calls |
| CText.StrtokScanTokens | macelf/mactrampolines.c:1545-1566 | n calls from the buffer start return NULL iff the C string has fewer than n tokens, find min(n, tokens) of them, and each returned pointer reads its token in the final buffer |
| CText.StrtokScanStays | macelf/mactrampolines.c:1545-1566 | after a NULL, further calls change nothing |
| CText.StrtokScanGrows | macelf/mactrampolines.c:1545-1566 | later calls keep the pointers earlier calls returned |
| CText.TokensJoin | macelf/mactrampolines.c:1477-1488 | strtok splits joined words back into the words |
| Mtab.SuffixTokens | macelf/mactrampolines.c:1479-1487 | the option suffix splits at commas into the names of the set bits, in order |
| Mtab.MountOptsTokens | macelf/mactrampolines.c:1477-1488 | split at commas, the options are "ro" or "rw" followed by the set ones of sync, async, noexec, nosuid, nodev in order |
| Mtab.MountOptsFit | macelf/mactrampolines.c:1475-1488 | the options are at most 33 characters, so the 256-byte buffer cannot overflow |
| Mtab.MntLine | macelf/mactrampolines.c:1490-1491 | snprintf into 1024 bytes: the full line cut to 1023 characters |
| Mtab.MntLines | macelf/mactrampolines.c:1490-1505 | one line per mount, in getmntinfo order |
| Mtab.ReadCount | macelf/mactrampolines.c:1441-1449 | the count is min(len, remaining), and the request unchanged when it is not positive |
| Mtab.DeliveredAll | macelf/mactrampolines.c:1439-1451 | positive reads deliver the rest of the buffer exactly once, in order |
| Mtab.MtabIo.constructor | macelf/mactrampolines.c:1514-1516 | the cursor starts at 0 over the buffer |
| Mtab.MtabIo.Read | macelf/mactrampolines.c:1439-1451 | copies the count of bytes from the cursor and advances it by that count, keeping pos <= len; nothing moves for a non-positive count |
| Mtab.Setmntent | macelf/mactrampolines.c:1462-1526 | other names go to fopen; for /etc/mtab a failed realloc gives ENOMEM, a failed malloc or funopen gives NULL, otherwise a stream over all the mount lines from position 0 |
| Mtab.FgetsLine | macelf/mactrampolines.c:1542 | fgets stores a non-empty prefix that fits the room |
| Mtab.Fgets | macelf/mactrampolines.c:1540-1543 | NULL iff at end of file; otherwise a line of at most 511 characters and the rest |
| Mtab.FgetsText | macelf/mactrampolines.c:1542 | the C string fgets leaves in the buffer is the line up to its first NUL, whatever the buffer held before |
| Mtab.MntEntSlot.constructor | macelf/mactrampolines.c:1540-1541 | static storage starts zeroed: NULL pointers, zero counts, a buffer of NULs |
| Mtab.MntEntSlot.Getmntent | macelf/mactrampolines.c:1538-1570 | at end of file NULL and nothing changes; otherwise the line is stored in the buffer and strtok run over it in place: true iff the line has six tokens; the four string fields become indices into the buffer and the two counts atoi of their tokens, set in order as each token is found; a field not reached keeps its old index, which then reads whatever the new line left there; each pointer set reads its token, and a full entry is the parsed one |
| Mtab.FullLineDir | macelf/mactrampolines.c:1545-1551 | on "a b c d 0 0\n" the dir pointer is index 2 |
| Mtab.ShortLineStaleDir | macelf/mactrampolines.c:1542-1551 | a following line "xyz\n" has one token, so dir is not reset and its index 2 now reads "z\n" |
| Mtab.OptsPlain | macelf/mactrampolines.c:1477-1488 | the options never hold a space, newline or NUL |
| Mtab.FgetsWholeLine | macelf/mactrampolines.c:1542 | fgets returns a short newline-terminated line whole |
| Mtab.LineFields | macelf/mactrampolines.c:1490-1491 | a mount line with plain names splits into the six fields |
| Mtab.AtoiZero | macelf/mactrampolines.c:1563-1566 | the "0" and "0\n" fields read as 0 |
| Mtab.MountLineRoundTrip | macelf/mactrampolines.c:1490-1569 | a readable mount's line read back yields its names and options, with freq and passno 0 |
| Mtab.MtabEntries | macelf/mactrampolines.c:1462-1570 | reading the whole mtab back yields each mount's entry in order |
| Sockaddr.SockaddrLenKnown | macelf/mactrampolines.c:2320-2334 | supported exactly for the three Mac families, each with its own struct size |
| Sockaddr.LinuxFamily | macelf/mactrampolines.c:2338 | the Linux family is the 16-bit word at the start |
| Sockaddr.Copied | macelf/mactrampolines.c:2350 | memcpy keeps the destination's length |
| Sockaddr.LinuxToMacAccepts | macelf/mactrampolines.c:2336-2358 | succeeds exactly for four family words: Linux 10, AF_UNIX, AF_INET, and a Linux family equal to the Mac AF_INET6 value (30 on macOS, Linux AF_TIPC), which get_sockaddr_len also accepts (mactrampolines.c:2320-2329, tested at 2342-2347); it then writes the length and Mac family bytes over a copy that leaves the rest of the buffer alone |
| Sockaddr.LinuxFamilyOf | macelf/mactrampolines.c:2365-2368 | the Linux family value fits a byte |
| Sockaddr.MacToLinuxRejectsInet6 | macelf/mactrampolines.c:2364-2374 | as written, AF_INET6 is always refused; only AF_UNIX and AF_INET pass |
| Sockaddr.FixedRoundTrip | macelf/mactrampolines.c:2336-2384 | Linux to Mac and back restores the address, for all three families with the corrected test and for all but AF_INET6 as written |
| Sockaddr.LinuxSockaddrToMac | macelf/mactrampolines.c:2336-2358 | 1 with the Mac buffer rewritten, or 0 with ENOTSUP and the buffer untouched |
| Sockaddr.MacSockaddrToLinux | macelf/mactrampolines.c:2360-2384 | as written: 1 with the Linux buffer rewritten, or 0 with ENOTSUP and the buffer untouched |
| CodeMaps.GaiStrerrorKnown | macelf/mactrampolines.c:2490-2507 | each listed code gets its message; "unknown error" exactly for the others |
| CodeMaps.AddrinfoErrorTranslates | macelf/mactrampolines.c:2509-2528 | 0 stays 0, each Mac code becomes the Linux code of the same name, anything else EAI_FAIL |
| CodeMaps.AddrinfoErrorHasMessage | macelf/mactrampolines.c:2490-2528 | every translated code is 0 or has a gai_strerror message |
| CodeMaps.AddrinfoErrorInjective | macelf/mactrampolines.c:2490-2528 | two Mac codes that translate to the same code other than EAI_FAIL are the same code |
| CodeMaps.SockoptTranslates | macelf/mactrampolines.c:2616-2640 | each Linux option becomes the Mac option of the same name, and -1 exactly for unlisted ones |
| CodeMaps.SockoptCallOutcome | macelf/mactrampolines.c:2642-2666 | ENOTSUP iff the option is unknown; otherwise the call with SOL_SOCKET translated, other levels passed and the option translated |
| CodeMaps.SetlocaleTranslates | macelf/mactrampolines.c:918-949 | the OS is reached exactly for the seven Linux categories, each with the Mac category of the same name (the switch cases, LocaleOutcomes), and distinct ones stay distinct |
| PthreadKeys.SlotAfterCreate | macelf/mactrampolines.c:2241-2258 | with a Linux key naming the Mac key at its index iff it is below the count (SlotOf), a create gives the new Mac key to index "old count" and leaves every other index |
| PthreadKeys.KeyRegistry.constructor | macelf/mactrampolines.c:2238-2239 | no keys at start |
| PthreadKeys.KeyRegistry.KeyCreate | macelf/mactrampolines.c:2241-2258 | ENOMEM on a failed realloc; otherwise the native result, and on 0 the key is the old count and one slot is appended |
| PthreadKeys.KeyRegistry.KeyDelete | macelf/mactrampolines.c:2260-2271 | EINVAL for a key not below the count; otherwise the native delete of its Mac key |
| PthreadKeys.KeyRegistry.SetSpecific | macelf/mactrampolines.c:2273-2284 | EINVAL for a key not below the count; otherwise the native setspecific |
| PthreadKeys.KeyRegistry.GetSpecific | macelf/mactrampolines.c:2286-2293 | NULL for a key not below the count; otherwise the native getspecific |

## Left out

- The operating system. mmap, mprotect, munmap, calloc, malloc, realloc,
  dlopen, dlclose, fopen, funopen and getmntinfo are parameters (`Env`,
  boolean success flags, lookup maps) or logged actions, not modelled calls.
- The memory mapping. The image is a byte array of the mapped length, and
  the mapping's protections are logged requests only.
- Relocation, symbol-export building and init/fini calls. They do not exist
  in mojoelf.c. `MOJOELF_dlopen_mem` stops with "write me" after loading
  dependencies (mojoelf.c:516-519), so no handle with symbols is ever built.
  `ElfHandle.syms` is nevertheless kept for dlsym and dlclose.
- `MOJOELF_dlopen` (file reading) and `main` in mojoelf.c. These are I/O.
- The entry jump and the command line of macelf/macelf.c. They transfer
  control at machine level.
- The trampoline wrappers of mactrampolines.c. They are modelled only as far
  as the flag translation, the sockaddr rewrite, the switches and the key
  registry go.
  - Not modelled: floating point, struct conversions of Mac system types,
    the glob mapping, and the generated X11, OpenGL, OpenAL and SDL wrappers.
- Concurrency. The loader and pthread-key mutexes and `pthread_once` are
  omitted; the key registry is sequential.
- The hash table's chains are sequences, not linked nodes. Pointer aliasing
  between items is therefore not modelled.
  - The keymatch callback is equality on the key type.
  - The hash callback is a function field.
  - The nuke callback is a ghost log.
  - `hash_create`'s data pointer is not modelled.
- HashTables.CalcHash: written as arithmetic (the low 16 bits, bit 0
  cleared) rather than as the bit mask `& 0xFFFE`. The two agree on bv32.
- Flags and masks are sets of bit positions, not C ints. Negative flag
  values and bits above 31 are not modelled.
- Mac-side constants are abstract, with validity predicates: distinct
  values, disjoint single bits, and no Mac family equal to 10.
- LinuxFlags.Open: the variadic mode argument is a parameter read only under
  O_CREAT. Its 16-bit cut is modelled; the va_list mechanics are not.
- Mtab.Setmntent: the mode is ignored for "/etc/mtab" (as in the code).
  int overflow of the running mtab length is not modelled (unbounded
  integers).
- Mtab.MntEntSlot.Getmntent: lines longer than 511 characters are split
  across fgets calls as fgets does. The round-trip lemmas require mount
  lines of at most 511 characters whose names hold no space, newline or
  NUL. atoi (leading spaces, a sign, decimal digits) is modelled without
  int overflow. Pointers are indices into the static buffer (None for
  NULL, which the entry reads as empty); the FILE is the text not yet
  read, and a read error is not modelled. The six strtok calls run before
  the fields are assigned; nothing observes the difference, because
  getmntent sets exactly the fields of the calls that found a token.
- PthreadKeys.KeyRegistry.KeyCreate: the uint32 wrap of `num_pthread_keys`
  is not modelled. Mac keys and pointer values are naturals.
- Sockaddr.LinuxSockaddrToMac and Sockaddr.MacSockaddrToLinux: the buffers
  are required to hold the struct and header being copied. The code does not
  check the caller's buffer sizes, so an overrunning memcpy is not modelled.
- CodeMaps.GaiStrerrorKnown: states which code gets which message, not that
  the messages are pairwise distinct.
- ElfHeader.ValidateHeaderAsWritten: tests 16-19 are stated on the decoded
  values and need no bytes beyond the buffer, so where a sum wraps they pass
  or fail without the read the C makes past the buffer (mojoelf.c:205-210,
  215-218). What the C would read there is undefined; the reads themselves are
  reported separately by ElfHeader.HeaderReadOutsideAsWritten, and
  ElfHeader.HeaderReadsInside shows there are none when no sum wraps.
- ElfLayout.ScanProgramHeaders, ElfLayout.ScanOkMeans, ElfLoader.ScanOkFinds,
  ElfLoader.ScanStageErrors: the scan takes `p_vaddr + p_memsz` and
  `p_offset + p_filesz` as exact sums, the corrected reading. The compiled
  size_t wrap is ElfLayout.ScanPrefixAsWritten, which agrees when no sum
  wraps (ElfLayout.ScanAsWrittenAgrees); see "## Findings".
- ElfLayout.RoundLayout, ElfLoader.AfterMap: the rounding is exact; the
  wrapping one is ElfLayout.RoundLayoutAsWritten, equal to it inside the
  address space (ElfLayout.RoundLayoutAsWrittenAgrees).
- ElfLoader.AfterAlloc, ElfLoader.Loader.MapAndLoad: they compose the exact
  scan and rounding above, so inputs whose sums wrap take the corrected path.
- ElfLoader.OpenOutcome, ElfLoader.Loader.DlopenMem, ElfLoader.AfterIndex,
  ElfLoader.AfterIndexHolds, ElfLoader.Loader.CheckAndLoad,
  ElfLoader.Loader.IndexAndLoad, ElfLoader.Loader.MapAndPlace,
  ElfLoader.Loader.ProtectAndLoad: they model the corrected
  program, not the compiled one (the last six from the string-table checks on). They use the exact ValidateHeader, the
  intended fail: label (FailLabel), the intended dynamic slot (SlotOf) and
  the checked CheckDynStrTab, whose "Dynstrtab outside the file" message the
  C does not have. They skip the string-table setup of mojoelf.c:349-351,
  whose maxstr nothing compiled reads. On the inputs of "## Findings" the dlerror message and the actions
  therefore differ from the C's.
- ElfLoader.DepsStage: the dependency loader receives the string-table
  offset of each DT_NEEDED name, not the string. The unchecked read of that
  name (like the one of the table start) is not modelled further.

## Findings

| source | as written | input that shows it | evidently intended | confidence | as-written member | corrected member |
|---|---|---|---|---|---|---|
| mojoelf.c:345-346, 526-529 | the fail: label writes `retval->fini` (mojoelf.c:527) even when it jumps there before the handle is allocated | any buffer shorter than 64 bytes (or a calloc failure) | release only an allocated handle | not executed | ElfLoader.ShortBufferWritesNullAsWritten | ElfLoader.FailLabelReleasesHeld |
| mojoelf.c:349-351 | the string-table setup runs when e_shstrndx is 0 and reads section header 0, past the buffer when there are no section headers; its `sh_size - 1` wrap is inert, since maxstr is only read under `#if 0` | an accepted header with e_shnum 0, e_shstrndx 0 and e_shoff at the buffer end | set up a limit only when e_shstrndx names a string table | not executed | ElfLoader.EmptySectionTableReadsOutsideAsWritten | ElfLoader.StringTableLimit |
| mojoelf.c:445, 455 | `(int) d_tag` turns tags of 2^31 and up negative, and they pass `tag < MAX_DYNTABS` | a dynamic entry with d_tag 0x80000000 indexes slot -2^31 | compare the unsigned tag | not executed | ElfDynamic.NegativeTagPassesAsWritten | ElfDynamic.SlotOfAgreesInRange |
| mojoelf.c:469-470 | the DT_STRTAB d_ptr is read without a bounds check | DT_STRTAB 4096 and DT_STRSZ 1 in a 16-byte buffer | reject a string table outside the buffer | not executed | ElfDynamic.UncheckedStrTabReadsOutside | ElfDynamic.CheckDynStrTab |
| mojoelf.c:148, 158, 194, 196 | the offset-plus-size bounds are uintptr sums and wrap | an x86-64 header with one program header at e_phoff 2^64 - 56 is accepted as written | compare without wrap-around | not executed | ElfHeader.WrappedHeaderAcceptedAsWritten | ElfHeader.ValidateHeader |
| mojoelf.c:366, 386-388 | `p_vaddr + p_memsz` and the page rounding are size_t sums and wrap | loads at 0x2000 (memsz 0x1000) and 0x3000 (filesz 0x2000, memsz 2^64 - 0x2000) with a PT_DYNAMIC in a 0x2000-byte file map 0x2000 bytes, and the memcpy of mojoelf.c:411 overruns them | take the exact end of every load | not executed | ElfLayout.WrappedEndOverrunsAsWritten | ElfLoader.ScanReady |
| macelf/mactrampolines.c:2367-2370 | mac_sockaddr_to_linux rewrites AF_INET6 to 10 and then asks the Mac-valued table about 10 | any Mac AF_INET6 address is refused with ENOTSUP | look up the Mac family | not executed | Sockaddr.MacToLinuxRejectsInet6 | Sockaddr.FixedRoundTrip |
