# Basilisk II: a verified model of its stateful core

Basilisk II is a 68k Macintosh emulator. Six of its parts keep state that later calls depend on
and promise something about it that no single function shows. This project models those parts in
Dafny, in the form the program has (classes whose methods update fields, arrays filled in place,
linked lists), and proves what they promise for every input, every call sequence or every
reachable state. Where a promise does not hold, the model keeps the code as it is, gives the
exact condition under which it holds, and a concrete case where it fails.

| part | files |
|---|---|
| Machine words, Mac memory, optional results | `MacMemory.dfy`, `Options.dfy` |
| SCSI Manager: scatter/gather table, TIB interpreter, bus protocol, back end | `ScatterGather.dfy`, `TibInterpreter.dfy`, `ScsiTransfer.dfy`, `ScsiProtocol.dfy`, `ScsiAdapter.dfy`, `ScsiManager.dfy` |
| Unaligned I/O on a block device | `BlockIo.dfy`, `SysSpec.dfy`, `SysFile.dfy`, `SysExact.dfy`, `SysTail.dfy` |
| ExtFS catalogue of file IDs, directory-count cache | `Catalogue.dfy`, `CatalogueNames.dfy`, `CatalogueTargets.dfy`, `CatalogueCache.dfy`, `CatalogueCounts.dfy`, `ExtFs.dfy` |
| Slot declaration ROM: bytes and reader, checksum, layout, builder, mode switches | `RomBytes.dfy`, `RomChecksum.dfy`, `SlotLayout.dfy`, `SlotImage.dfy`, `SlotRom.dfy`, `Video.dfy`, `VideoRom.dfy` |
| Time Manager, time encodings, Mac calendar | `MacTime.dfy`, `TimerModel.dfy`, `TimerFiring.dfy`, `TimeManager.dfy` |
| Preferences: text form, ordered multimap, linked list | `PrefsText.dfy`, `PrefsList.dfy`, `PrefsLoad.dfy`, `Prefs.dfy` |

In each part the methods of a class are proved against functions on plain values, and the main
theorems are lemmas about those functions: independent descriptions (a ledger of accepted
transfers, a flat byte array, a map from IDs to paths, a reader, an event history, a multimap)
to which the optimised or stateful form is compared.

Results worth knowing before reading the code:

* In every interrupt each overdue task fires exactly once and no other task fires, as long as no
  timer function inserts, removes or primes it (`TimerFiring.OverdueTaskFires`), and its function
  runs (`TimerFiring.TimerFunctionRuns`).
* A rename or move asks the host for exactly the paths its directory IDs and names stand for, and
  hands the CNID of the object to the new path (`CatalogueTargets.RenameConcernsTarget`,
  `MoveConcernsTarget`).
* After loading preferences over existing ones every setting is the one on the last line that names
  it (`PrefsLoad.LoadedAnswers`).
* Merging adjacent scatter/gather entries adds two 32-bit lengths. The table still names the
  requested bytes if and only if no back-to-back run of requests reaches 4 GB
  (`ScatterGather.MergesFitIffNoLongChain`, `CompressionCanLoseBytes`).
* Short answers of a device count as success. A successful read is exact, whatever the contents, if
  and only if the answers cover every needed byte, from below 4 GB or on a 64-bit device
  (`SysExact.ReadIsExactIffCovered`, `SysTail.ShortAnswersSucceed`); on a device that answers in
  full, if and only if all requests lie where they can be reached (`SysTail.FullReadIsExactIff`).
* A successful write is exact if and only if it has no partial last block (which is patched in the
  wrong direction), its other bytes were all written where they belong, and no byte of the first
  block was written back that had not been read (`SysExact.WriteIsExactIffCovered`,
  `SysTail.FullWriteIsExactIff`, `SysTail.TailWriteCopiesTheWrongWay`).
* A successful move exchanges exactly two paths if and only if it does not put an object named like
  the volume into the root's parent (`Catalogue.MoveTransposesIff`, `MoveOntoRootLosesPaths`).
* A guest lookup finds its item again if and only if the name has at most 31 characters
  (`CatalogueNames.GuestLookupRepeatsIff`).
* Encoding a remaining time is accurate to a millisecond if and only if it is not negative and
  below 2^31 ms (`MacTime.EncodingIsCloseIff`).
* Every catalogue item keeps its path, and so its cached directory count answers the queries of
  that one path, whatever lookups, renames and moves come in between
  (`CatalogueCounts.EveryRunFollowsOwnPath`). The answers are right if and only if at each query
  the first one with the greatest time stamp so far saw the same count
  (`CatalogueCounts.AnswersOfRunIff`). So a count goes stale when a change falls between two
  queries within one time stamp (`CatalogueCache.StaleCount`), and also when an older directory
  takes over a name that was in use before (`CatalogueCounts.ReusedNameIsStale`).
* An extended timer task that is removed, inserted again and re-primed goes on with its own
  schedule if and only if no earlier descriptor was free, or the first free one happens to hold the
  same time (`TimerModel.ResumedScheduleIff`).
* Saved preferences load back unchanged if and only if their strings are single lines that fit
  the line buffer, do not start with white space, and occur once unless declared multiple
  (`PrefsList.RoundTrip`). A text loads, without the parser running past a line, if and only if
  every line is empty as a C string, a comment, or has white space before its last character
  (`PrefsList.LoadSucceedsIff`); an empty line is none of these.

## Model

| member | source | states |
|---|---|---|
| `ScatterGather.AddAllConcat` | src/scsi.cpp:116-131 | adding two batches of transfers one after the other is adding their concatenation, failures included |
| `ScatterGather.AddAllSize` | src/scsi.cpp:79-82 | no sequence of additions makes the table longer than 1024 entries |
| `ScatterGather.AddAllLength` | src/scsi.cpp:116-131 | additions increase the table's total length by the sum of theirs, modulo 2^32, even when merged lengths wrap |
| `ScatterGather.CompressionIsExact` | src/scsi.cpp:116-131 | for every table and every accepted batch: the table's byte addresses are the old ones followed by the batch's, if and only if no merged length reaches 2^32 |
| `ScatterGather.CompressionKeepsAddresses` | src/scsi.cpp:116-131 | when the merges fit, compression preserves the exact address sequence |
| `ScatterGather.MergesFitIffNoLongChain` | src/scsi.cpp:116-131 | starting from an empty table the merges fit exactly when no back-to-back run of the requests reaches 4 GB, a condition on the requests alone |
| `ScatterGather.CompressionFromEmpty` | src/scsi.cpp:116-131 | the table built from nothing names exactly the requested addresses if and only if no such run exists |
| `ScatterGather.CompressionCanLoseBytes` | src/scsi.cpp:119-120 | a concrete pair of requests whose merged length wraps and whose bytes are lost |
| `TibInterpreter.RunSplit` | src/scsi.cpp:93-161 | running n+k instructions is running n and then k |
| `TibInterpreter.HaltIsUnique` | src/scsi.cpp:93-161 | a program has one outcome, however many steps it is given beyond those it needs |
| `TibInterpreter.RunTable` | src/scsi.cpp:93-161 | after any number of instructions, halted or not, in error or not, the table is the one the accepted transfers make in order |
| `TibInterpreter.RunTotal` | src/scsi.cpp:116-131 | and the recorded total grew by the sum of the accepted lengths, modulo 2^32 |
| `TibInterpreter.RunPreservesMeaning` | src/scsi.cpp:90-162 | every run's table expands to the old addresses followed by those of the accepted transfers, if and only if the merges fit |
| `TibInterpreter.RunTableSize` | src/scsi.cpp:121-129 | no program overflows the table |
| `TibInterpreter.IncLoop` | src/scsi.cpp:116-151 | the self-modifying loop `scInc ptr len; scLoop -10 n; scStop` halts after 2n+1 instructions, adds n*len, makes or extends one entry, leaves its fields at ptr+n*len and 0, and touches no other memory |
| `TibInterpreter.IncLoopTableFull` | src/scsi.cpp:121-129 | with no room it stops at once with -108, its pointer already advanced |
| `TibInterpreter.NoIncLoop` | src/scsi.cpp:118-151 | with `scNoInc` it appends an entry per turn and ends with -108 exactly when the table runs out, leaving it full |
| `TibInterpreter.LoopJumps` | src/scsi.cpp:141-145 | one scLoop with any offset and count: it goes on at its own address plus the offset, or behind itself when the count reaches 0, and changes its counter field only |
| `TibInterpreter.IndirectTransfer` | src/scsi.cpp:112-161 | `scNop; scAdd a k; scMove a t+32; scNoInc x len` and a last instruction: the transfer has the sum of the long at a and k as its address, that sum is left at a and in the transfer's own field, no other byte changes, and the last instruction's code, or -108, is returned |
| `ScsiTransfer.GatherReadsAddresses` | src/AmigaOS/scsi_amiga.cpp:238-247 | gathering range by range reads the bytes at the expanded addresses in order |
| `ScsiTransfer.ScatterWritesAddresses` | src/AmigaOS/scsi_amiga.cpp:265-273 | scattering range by range writes consecutive data to the expanded addresses in order |
| `ScsiTransfer.MergedTableMovesSameData` | src/scsi.cpp:116-131 | gather and scatter through a compressed table move the same bytes as through the uncompressed requests |
| `ScsiTransfer.ScatterThenGather` | src/AmigaOS/scsi_amiga.cpp:216-289 | gathering after scattering returns the data if and only if ranges that overlap received the same bytes |
| `ScsiTransfer.ReadIntoDisjointRanges` | src/AmigaOS/scsi_amiga.cpp:265-273 | for disjoint ranges that is always so |
| `ScsiTransfer.DirectTransferIsBuffered` | src/AmigaOS/scsi_amiga.cpp:226-234 | the single-entry bypass leaves the memory the buffered path leaves |
| `ScsiProtocol.EveryRunMatchesLedger` | src/scsi.cpp:185-303 | after every call sequence, while the bus is in use, table, total and direction are those of the transfers since the last SCSIGet, by an independent account of the calls |
| `ScsiProtocol.EveryRunKeepsInvariant` | src/scsi.cpp:74-83 | after every call sequence the status word is the one of the phase, the table has at most 1024 entries, and outside the free phase the total is the sum of its lengths modulo 2^32 |
| `ScsiProtocol.TransferKeepsLedger` | src/scsi.cpp:279-303 | one SCSIRead or SCSIWrite appends exactly its accepted ranges to the account |
| `ScsiProtocol.CompleteSendsWhatWasAsked` | src/scsi.cpp:310-326 | in the transfer phase the table names exactly the bytes asked for, in order, if and only if no run reaches 4 GB; the direction is read if and only if SCSIRead was among the calls |
| `ScsiProtocol.HandshakeLeadsToTransfer` | src/scsi.cpp:185-272 | from every free bus, arbitration, selection and a command lead to the transfer phase, with that target and an empty table, if and only if ID, target, length and unit are good; a bad length leaves the target selected, any other fault frees the bus |
| `ScsiProtocol.TransferNeedsHandshake` | src/scsi.cpp:169-326 | conversely every history that ends in the transfer phase contains such a handshake with the recorded target, with no reset in between and no completion since |
| `ScsiProtocol.CodesTellPhases` | src/scsi.cpp:169-326 | every call in the wrong phase returns its code and changes nothing; in the right one it returns 0 if and only if it took the bus on |
| `ScsiAdapter.Adapter.TryBuffer` | src/AmigaOS/scsi_amiga.cpp:159-171 | the buffer has at least the asked size on success; failure leaves it as it was |
| `ScsiAdapter.Adapter.GatherIntoBuffer` | src/AmigaOS/scsi_amiga.cpp:238-247 | the copy loop leaves the gathered bytes at the start of the buffer |
| `ScsiAdapter.Adapter.ScatterFromBuffer` | src/AmigaOS/scsi_amiga.cpp:265-273 | the copy loop leaves memory as scattering the buffer does |
| `ScsiAdapter.Adapter.SendCommand` | src/AmigaOS/scsi_amiga.cpp:216-289 | refused allocation, autosense replies, errors, buffered and direct transfers: what is sent, what memory and status become |
| `ScsiManager.Manager.constructor` | src/scsi.cpp:74-83 | a new manager is the power-on state |
| `ScsiManager.Manager.Reset` | src/scsi.cpp:169-178 | refines the protocol's reset |
| `ScsiManager.Manager.Get` | src/scsi.cpp:185-197 | refines arbitration, busy when not free |
| `ScsiManager.Manager.Select` | src/scsi.cpp:204-226 | refines selection: wrong phase, absent target, illegal ID |
| `ScsiManager.Manager.Cmd` | src/scsi.cpp:233-272 | refines the command phase: wrong phase, bad length, absent unit |
| `ScsiManager.Manager.ExecTib` | src/scsi.cpp:90-162 | the interpreter loop over the fixed arrays computes the outcome, table, total and memory of the abstract run |
| `ScsiManager.Manager.Read` | src/scsi.cpp:279-288 | refines the protocol's read transfer |
| `ScsiManager.Manager.Write` | src/scsi.cpp:295-303 | refines the protocol's write transfer |
| `ScsiManager.Manager.Complete` | src/scsi.cpp:310-326 | releases the bus, clears the message word, moves the data and stores the status; outside the transfer phase nothing but the message word changes |
| `ScsiManager.CompleteMovesWhatWasAsked` | src/scsi.cpp:310-326 | after every call sequence asking for less than 4 GB, the table gathers and scatters byte for byte what the programs asked for |
| `BlockIo.MaskRoundsDown` | src/AmigaOS/sys_amiga.cpp:470-470 | masking with block size - 1 rounds down to whole blocks when the block size is a power of two |
| `BlockIo.MaskRoundsIffPowerOfTwo` | src/AmigaOS/sys_amiga.cpp:470-470 | it does so for every length if and only if the block size is a power of two |
| `BlockIo.MiddleIsAligned` | src/AmigaOS/sys_amiga.cpp:438-494 | the three parts make up the request, the middle one whole blocks at a block boundary |
| `BlockIo.Device.Send` | src/AmigaOS/sys_amiga.cpp:314-396 | one request moves the answered bytes between buffer and device at the (possibly truncated) offset and is recorded |
| `SysSpec.PlansAreAligned` | src/AmigaOS/sys_amiga.cpp:438-494 | every request of a read (at most three) or write (at most five) is block-aligned and whole blocks |
| `SysSpec.AllAnsweredIff` | src/AmigaOS/sys_amiga.cpp:386-395 | all requests of a read or write are answered if and only if for each the device reports no error and at least one byte and its position, truncated on a 32-bit device, is on the device |
| `SysFile.FileHandle.ReadFirst` | src/AmigaOS/sys_amiga.cpp:441-464 | the partial first block, through the temporary buffer, for every answer |
| `SysFile.FileHandle.ReadMiddle` | src/AmigaOS/sys_amiga.cpp:466-482 | the whole blocks, straight into the caller's buffer |
| `SysFile.FileHandle.ReadLast` | src/AmigaOS/sys_amiga.cpp:484-497 | the partial last block |
| `SysFile.FileHandle.Read` | src/AmigaOS/sys_amiga.cpp:404-502 | issues exactly the planned requests and returns the length if all are answered, with the buffers as the moved bytes make them, otherwise 0; the device stays |
| `SysExact.ReadIsExactIffCovered` | src/AmigaOS/sys_amiga.cpp:438-501 | a successful read delivers the flat device's bytes for every device and buffer content if and only if every needed byte was moved from the position meant |
| `SysFile.FileHandle.WriteFirst` | src/AmigaOS/sys_amiga.cpp:547-577 | reads, patches and rewrites the first block, for every pair of answers, also when no byte is to be written |
| `SysFile.FileHandle.WriteMiddle` | src/AmigaOS/sys_amiga.cpp:579-595 | writes the whole blocks in one request, for every answer |
| `SysFile.FileHandle.WriteTail` | src/AmigaOS/sys_amiga.cpp:597-617 | reads and rewrites the last block, copying into the caller's buffer, for every pair of answers |
| `SysFile.FileHandle.Write` | src/AmigaOS/sys_amiga.cpp:510-622 | issues exactly the planned requests and returns the length if all are answered, with device and buffers as the moved bytes make them, otherwise 0 |
| `SysExact.WriteIsExactIffCovered` | src/AmigaOS/sys_amiga.cpp:544-620 | a successful write changes exactly its range to the caller's bytes, for every device and buffer content, if and only if there is no tail, the answers cover the range, and no unread byte around it was written back |
| `SysExact.CoveredWriteIsExact` | src/AmigaOS/sys_amiga.cpp:544-595 | the covered direction, also for buffers longer than the request |
| `SysExact.NoTailIff` | src/AmigaOS/sys_amiga.cpp:544-597 | there is no tail when the request ends inside the first block or at a block boundary, and only then |
| `SysExact.WriteThenRead` | src/AmigaOS/sys_amiga.cpp:404-622 | a covered read after any successful write shows what the write left; after a covered write it returns what was written |
| `SysTail.FullReadIsExactIff` | src/AmigaOS/sys_amiga.cpp:404-502 | on a device that answers every planned request in full, a read is exact for every content if and only if it is empty or all its requests reach their positions |
| `SysTail.FullWriteIsExactIff` | src/AmigaOS/sys_amiga.cpp:510-622 | on such a device a write is exact for every content if and only if it ends on a block boundary or in the partial block it starts in, and is empty or all its requests reach their positions |
| `SysTail.ServedWrite` | src/AmigaOS/sys_amiga.cpp:544-617 | a write served in full puts all but the tail on the device and replaces the tail in the caller's buffer |
| `SysTail.ServedWriteThenRead` | src/AmigaOS/sys_amiga.cpp:404-622 | then reading back returns the data if and only if the tail already agreed with the device |
| `SysTail.ShortAnswersSucceed` | src/AmigaOS/sys_amiga.cpp:389-395 | on a device that moves one byte per request every read and write succeeds, and none of more than a byte, or of a byte inside a block, is covered |
| `SysTail.TailWriteCopiesTheWrongWay` | src/AmigaOS/sys_amiga.cpp:608-608 | every served write of less than a block to a block's start leaves the device as it was and overwrites the caller's buffer |
| `Catalogue.LookupsKeepWellFormed` | src/extfs.cpp:251-279 | either lookup keeps IDs distinct and below the counter, parents first and parent IDs right, and only appends |
| `Catalogue.ParentIdNamesDirectory` | src/extfs.cpp:292-303 | the item a recorded parent ID names has the directory part of the item's path |
| `Catalogue.ExchangeKeepsWellFormed` | src/extfs.cpp:310-320 | exchanging two IDs in items and parent IDs keeps the invariant |
| `Catalogue.ExchangeTransposesPaths` | src/extfs.cpp:2041-2047 | and is an exact transposition of the map from IDs to paths, for every ID |
| `Catalogue.RenameTransposes` | src/extfs.cpp:2010-2048 | a successful rename swaps the paths of two IDs and of no others; a failed one leaves all items |
| `Catalogue.MoveTransposesIff` | src/extfs.cpp:2051-2095 | a successful move swaps the paths of two IDs and of no others, and keeps the invariant, each if and only if it does not go onto the root item |
| `Catalogue.MoveOntoRootLosesPaths` | src/extfs.cpp:2051-2095 | on a concrete volume and host such a move succeeds and changes a third object's path |
| `Catalogue.SmallVolumeIsReachable` | src/extfs.cpp:251-262 | that volume is what two lookups make of the initial one |
| `Catalogue.EveryRunKeepsInvariant` | src/extfs.cpp:251-320 | every run of lookups, renames and moves not onto the root item keeps the invariant, by induction over the run |
| `Catalogue.ExtensionKeepsIds` | src/extfs.cpp:230-245 | items appended by lookups change nothing about what existing IDs resolve to |
| `Catalogue.ReachableIsWellFormed` | src/extfs.cpp:404-446 | so from the initial volume on, the item named by a recorded parent ID always has the directory part of the path |
| `CatalogueNames.LookupsAgree` | src/extfs.cpp:251-279 | looking up a name and its encoding are the same operation when the encodings are inverse |
| `CatalogueNames.FindKeepsCoherent` | src/extfs.cpp:230-279 | lookups keep names unique within a parent and guest names their encodings |
| `CatalogueNames.GuestNamesUnique` | src/extfs.cpp:230-245 | so guest names are unique within a parent too |
| `CatalogueNames.EitherKeyFindsAgain` | src/extfs.cpp:251-279 | whichever key created an item, either finds it again and the list does not grow |
| `CatalogueNames.GuestLookupRepeatsIff` | src/extfs.cpp:230-279 | for any names: a repeated guest lookup finds its item if and only if the name has at most 31 characters |
| `CatalogueNames.ExchangeKeepsCoherent` | src/extfs.cpp:310-320 | ID exchanges keep this coherence |
| `CatalogueNames.EveryRunKeepsCoherent` | src/extfs.cpp:230-320 | every run with names that fit keeps both keys coherent and every item in its place with its names |
| `CatalogueNames.ReachableIsCoherent` | src/extfs.cpp:404-446 | so from the initial volume on, both keys are unique within every directory |
| `CatalogueNames.FoundAgainAfterRun` | src/extfs.cpp:251-279 | an item found once, under either key, is found again under either key after any allowed operations in between, without growing the list |
| `CatalogueTargets.ResolveFindsTarget` | src/extfs.cpp:886-981 | the item found for a directory ID and a guest name is the only one recorded under that directory ID with that name (the directory itself for an empty name), and its path is the directory's path with the decoded name joined to it, told by the catalogue before the call; it fails only for unknown IDs |
| `CatalogueTargets.RenameConcernsTarget` | src/extfs.cpp:2010-2048 | the return code follows from the paths of the two names below the directory; on success the CNID of the object with the old name resolves to the new path, that of an item with the new name to the old one, every other known CNID to what it did |
| `CatalogueTargets.MoveConcernsTarget` | src/extfs.cpp:2051-2095 | likewise for a move of an object, under its name, into the directory the second ID and name stand for, unless it goes onto the root item |
| `CatalogueTargets.ReachableIsSound` | src/extfs.cpp:404-446 | every allowed run with names that fit leads from the initial volume to a catalogue these statements are about |
| `CatalogueCache.AnswerRepeats` | src/extfs.cpp:1444-1478 | for any time stamps and kinds: the answer is the count at the last directory query whose stamp exceeded all before it, or the initial one |
| `CatalogueCache.AnswersRightIff` | src/extfs.cpp:1444-1478 | on every trace of a directory with stamps later than the start, going back or not, all answers equal a recount if and only if at each query the first one with the greatest stamp so far saw the same count |
| `CatalogueCache.SteadyAnswersRightIff` | src/extfs.cpp:1444-1478 | when the stamps do not go back, if and only if no two consecutive queries share a stamp and differ in visible entries |
| `CatalogueCache.CacheAgreesWithRecount` | src/extfs.cpp:1444-1478 | on every trace where time stamps are positive, never decrease and grow with every change, the cached count equals a recount |
| `CatalogueCache.StaleCount` | src/extfs.cpp:1444-1448 | a concrete stale count within one time stamp |
| `CatalogueCache.CountsUndottedNames` | src/extfs.cpp:1466-1473 | the count is the number of entries whose names do not begin with a dot |
| `CatalogueCounts.GrowingKeepsPath` | src/extfs.cpp:292-303 | an item's path depends on names and parents alone, so appended items and exchanged IDs leave it |
| `CatalogueCounts.PlainStepIs` | src/extfs.cpp:230-245 | an operation that leaves the cache fields of old items and starts those of new ones at time 0 is a step of a run |
| `CatalogueCounts.EveryRunFollowsOwnPath` | src/extfs.cpp:230-320 | after every run of lookups, renames, moves and count queries, each item's cache is what the queries of its own, unchanged path make of it |
| `CatalogueCounts.AnswersAreOfTrace` | src/extfs.cpp:1444-1478 | the answers given for an item during a run are those of its path's trace |
| `CatalogueCounts.AnswersOfRunIff` | src/extfs.cpp:1444-1478 | during every such run all answers for a directory item equal a recount of its own path if and only if at each query the first one with the greatest stamp so far saw the same count |
| `CatalogueCounts.AnswersFromStartIff` | src/extfs.cpp:404-446 | so from the initial volume on, for every item but the first two and positive time stamps |
| `CatalogueCounts.FaithfulPathIsCounted` | src/extfs.cpp:1444-1478 | on a host that advances the path's stamp with every change, the item reports what its path has, whatever the run |
| `CatalogueCounts.ReusedNameIsStale` | src/extfs.cpp:1445-1460 | a concrete allowed run: a directory is counted and renamed, an older one takes its name, and the item of that name reports the first one's count |
| `ExtFs.Volume.constructor` | src/extfs.cpp:404-446 | the initial list is the two fixed items and satisfies the invariant |
| `ExtFs.Volume.FindById` | src/extfs.cpp:215-224 | the list walk finds the item of a CNID, null if there is none |
| `ExtFs.Volume.CreateItem` | src/extfs.cpp:230-245 | appends one item with the next CNID and leaves all others, cache fields included |
| `ExtFs.Volume.Find` | src/extfs.cpp:251-262 | refines the lookup by host name; no item's cache fields change |
| `ExtFs.Volume.FindGuest` | src/extfs.cpp:268-279 | refines the lookup by guest name; no item's cache fields change |
| `ExtFs.Volume.GetPath` | src/extfs.cpp:292-303 | following parent pointers ends and leaves the item's path in the shared buffer |
| `ExtFs.Volume.SwapParentIds` | src/extfs.cpp:310-320 | one pass exchanges two parent IDs in every item and changes nothing else |
| `ExtFs.Volume.ExchangeIds` | src/extfs.cpp:2041-2047 | with the items' own IDs, the list becomes the abstract exchange; the cache fields stay with the item |
| `ExtFs.Volume.Resolve` | src/extfs.cpp:885-995 | directory ID and one guest name to item and path; no item's cache fields change |
| `ExtFs.Volume.Rename` | src/extfs.cpp:2010-2048 | refines the abstract rename, error codes included; the cache fields stay with the item |
| `ExtFs.Volume.CatMove` | src/extfs.cpp:2051-2095 | refines the abstract move, error codes included; the cache fields stay with the item |
| `ExtFs.Volume.DirCount` | src/extfs.cpp:1444-1478 | looks the item's own path up and refines a run's count query: catalogue, counter and the caches of all items |
| `RomBytes.OffsetReadsBack` | src/slot_rom.cpp:53-60 | a 24-bit self-relative offset leads back to its target within 8 MB either way |
| `RomBytes.ListFinds` | src/slot_rom.cpp:53-76 | a reader of an ended list lands on the target of the first entry with an ID |
| `RomBytes.HighByteFirst` | src/slot_rom.cpp:78-90 | words and long words are stored with the most significant byte first |
| `RomChecksum.CrcRotatesAndAdds` | src/slot_rom.cpp:470-473 | one more byte moves every bit of the sum so far up by one place, the highest to the lowest, and adds the byte modulo 2^32 |
| `RomChecksum.ZerosRotate` | src/slot_rom.cpp:470-473 | m bytes of 0 behind any image rotate its sum by m places |
| `RomChecksum.CrcOfShortImage` | src/slot_rom.cpp:470-473 | for at most 24 bytes the sum is that of the bytes, each counting twice the next one |
| `RomChecksum.ChecksumVerifies` | src/slot_rom.cpp:461-478 | a calculated checksum verifies, and calculating it again changes nothing |
| `RomChecksum.OneByteChangesSum` | src/slot_rom.cpp:470-473 | two images differing in one byte have different sums |
| `RomChecksum.EveryByteIsProtected` | src/slot_rom.cpp:461-478 | changing any one byte of a verifying image, checksum field included, makes it fail |
| `SlotLayout.AppleModesDiffer` | src/video.cpp:93-100 | different depths of a monitor get different Apple modes |
| `SlotLayout.AppleModeIs` | src/video.cpp:93-100 | a listed depth's Apple mode is 0x80 plus the number of different lower depths on the list |
| `SlotLayout.DepthFormats` | src/slot_rom.cpp:122-161 | bits per pixel double from depth to depth; the components fill an indexed pixel and leave 1 bit of 16 and 8 bits of 32 |
| `SlotLayout.MonitorReads` | src/slot_rom.cpp:178-227 | from a monitor's list a reader reaches its frame base and the record of every depth it has |
| `SlotImage.ReaderFindsRecords` | src/slot_rom.cpp:431-449 | from the header of a well-formed image through directory, slot ID, Apple mode and entry 1, a reader lands exactly on the record of that monitor and depth |
| `SlotImage.PatchKeepsImage` | src/video.cpp:375-399 | patching frame base and record of one monitor leaves a well-formed image that says something else only there, and no other byte changes |
| `SlotImage.ChecksumKeepsImage` | src/slot_rom.cpp:461-478 | storing the checksum keeps the image well-formed and makes it verify |
| `Video.ListedModeKeepsItsRowSize` | src/video.cpp:112-122 | a listed depth and resolution gets its own row size if no earlier mode shares both |
| `Video.UnlistedRowIsGuessed` | src/video.cpp:112-122 | an unlisted depth of a listed resolution gets the guess from the width of the first mode with the resolution |
| `Video.RowOfPixels` | src/include/video.h:80-91 | the guess is the whole bytes the row's pixels take |
| `Video.BuiltFields` | src/slot_rom.cpp:108-166 | the bytes of a built record, place by place: row bytes, height, width and bits per pixel of the selected mode |
| `Video.FindModeInverts` | src/video.cpp:160-168 | searching for a mode's own numbers finds the first mode of its depth and resolution |
| `Video.MonitorDesc.constructor` | src/video.cpp:88-104 | depths are numbered from 0x80 in ascending order of depth, absent ones 0, and the default mode is looked up |
| `Video.MonitorDesc.FindMode` | src/video.cpp:160-168 | the first matching mode, the list's length if none |
| `Video.MonitorDesc.GetBytesPerRow` | src/video.cpp:112-122 | the listed row size, otherwise a guess from the width |
| `Video.SlotIdsTellApartIff` | src/video.cpp:90-91 | slot IDs handed out in order can be told apart by a reader if and only if there are at most 127 |
| `Video.MonitorList.Add` | src/video.cpp:88-104 | each new monitor gets the next 8-bit slot ID |
| `SlotRom.RecordDecodes` | src/slot_rom.cpp:108-166 | the emitted bytes of a parameter record decode to its fields |
| `SlotRom.Builder.VModeParms` | src/slot_rom.cpp:108-166 | emits a record that decodes to the monitor's row bytes, height, width and the depth's format |
| `SlotRom.Builder.VModeDesc` | src/slot_rom.cpp:168-176 | emits a mode's list, leading to its record |
| `SlotRom.Builder.VMonitor` | src/slot_rom.cpp:178-227 | emits a complete monitor part of known size, keeping what was emitted before |
| `SlotRom.Builder.String` | src/slot_rom.cpp:92-97 | emits the text, a NUL and padding to an even place |
| `VideoRom.BuildImage` | src/slot_rom.cpp:229-447 | for any number of monitors that fit, the buffer becomes a well-formed image of the computed size that holds all board, video, CPU and Ethernet resources and whose parts say what the monitors say |
| `VideoRom.MacRom.InstallSlotROM` | src/slot_rom.cpp:229-455 | the image lies at the end of the ROM, verifies, describes the monitors, holds all other resources, and the rest of the ROM is as before |
| `VideoRom.InstallMonitors` | src/slot_rom.cpp:229-455 | for monitors created in order the slot IDs need no further condition, because an image has room for nine at most |
| `VideoRom.MacRom.ChecksumSlotROM` | src/slot_rom.cpp:461-478 | the in-place loop stores the checksum and changes nothing else |
| `VideoRom.MacRom.PatchRecord` | src/video.cpp:367-402 | finding and patching through the reader turns the layout into the switched one; no byte outside the patched fields and the checksum changes |
| `VideoRom.MacRom.SwitchMode` | src/video.cpp:351-402 | from any installed image: well-formed, verifying and describing the monitors again, with all other resources it held, a reader finds the new frame base, row bytes, height and width, and no other byte but the checksum has changed; hence after any sequence of switches |
| `VideoRom.ShownFields` | src/video.cpp:367-402 | what a reader finds after a switch, place by place: the mode's row bytes, height, width and bits per pixel |
| `MacTime.DelayRoundTrip` | src/AmigaOS/timer_amiga.cpp:109-138 | every delay above the smallest integer denotes the same duration after decoding and encoding |
| `MacTime.EncodingIsCloseIff` | src/AmigaOS/timer_amiga.cpp:127-138 | encoding is exact up to 2^31-1 microseconds, and loses less than a millisecond if and only if the time is in range |
| `MacTime.EncodingOverflows` | src/AmigaOS/timer_amiga.cpp:127-138 | from 2^31 milliseconds on it denotes a time that is more than a millisecond too short |
| `MacTime.LeapDaysAreGregorian` | src/macos_util.cpp:129-146 | the closed formula counts the Gregorian days since 1904, by induction over the years |
| `MacTime.MacTimeCountsSeconds` | src/macos_util.cpp:129-146 | the result is the number of seconds since 1904, modulo 2^32 |
| `MacTime.MacTimeIncreases` | src/macos_util.cpp:129-146 | later local times give larger results until the counter wraps |
| `TimerModel.ScanRefines` | src/timer.cpp:291-316 | an interrupt whose timer functions run any finite sequence of Time Manager calls keeps table and history in step |
| `TimerFiring.OverdueTaskFires` | src/timer.cpp:291-316 | for every reachable state and every task that no timer function inserts, removes or primes: it fires exactly once in the interrupt if it was armed with a wakeup time before now, and is idle afterwards; otherwise it does not fire and keeps its status |
| `TimerFiring.TimerFunctionRuns` | src/timer.cpp:299-312 | the overdue task's function runs if its address is not 0: priming its own task leaves it armed, from the scheduled time if it is extended and marked, otherwise from the clock |
| `TimerFiring.InsertTakesEffect` | src/timer.cpp:173-185 | an insertion installs its task if it was installed or any descriptor is free, and changes no other task's status |
| `TimerFiring.RemovalTakesEffect` | src/timer.cpp:192-222 | after a removal the task is out, the status of all others is unchanged |
| `TimerFiring.PrimingTakesEffect` | src/timer.cpp:229-284 | an installed task is armed by a priming, with the delay counted from its scheduled time if it is extended and marked, otherwise from now; no other task's status changes |
| `TimerFiring.InsertedRecord` | src/timer.cpp:176-176 | the type word after an insertion, bit by bit; nothing else in the task records changes |
| `TimerFiring.RemovedRecord` | src/timer.cpp:204-217 | a removal clears the active bit, leaves 0 as the time to go of a task that was not active, and keeps the rest |
| `TimerFiring.PrimedRecord` | src/timer.cpp:268-282 | a priming sets the active bit and marks an extended task, and keeps the rest |
| `TimerModel.EveryRunRefines` | src/timer.cpp:67-316 | after every run the descriptors in use name distinct tasks, the table implements a one-line status per task, and no task fired early or uninstalled |
| `TimerModel.FiringsBounded` | src/timer.cpp:291-316 | in every legal history a task fires at most as often as it was primed |
| `TimerModel.FiringNeedsInsertAndPrime` | src/timer.cpp:173-316 | between a removal (or reset) and a later firing lie an insertion and a priming whose time had passed |
| `TimerModel.PeriodicTaskDoesNotDrift` | src/timer.cpp:241-266 | an extended task re-primed k times with delay d is scheduled exactly k*d later, however late interrupts run and whatever other tasks do |
| `TimerModel.ResumeKeepsRemainingTime` | src/timer.cpp:192-278 | removing and re-priming with the stored count keeps the remaining time, exactly up to 2^31-1 microseconds, otherwise less than a millisecond early; overdue tasks become due at once, as intended |
| `TimerModel.ResumedScheduleIff` | src/timer.cpp:67-77 | an extended task removed, inserted again and primed while still marked counts from the time in the descriptor it claims (lines 249-252), and keeps its own schedule if and only if no earlier descriptor was free or the claimed one holds the same time |
| `TimeManager.Manager.AllocDesc` | src/timer.cpp:67-77 | the first free descriptor is claimed, none changes when all are in use |
| `TimeManager.Manager.InsTime` | src/timer.cpp:173-185 | refines insertion and keeps the table valid |
| `TimeManager.Manager.RmvTime` | src/timer.cpp:192-222 | refines removal, with the remaining time stored |
| `TimeManager.Manager.PrimeTime` | src/timer.cpp:229-284 | refines priming, extended and not |
| `TimeManager.Manager.TimerInterrupt` | src/timer.cpp:291-316 | the scan loop with re-entrant timer functions refines the abstract scan |
| `TimeManager.Manager.TimerReset` | src/timer.cpp:161-166 | refines the reset |
| `PrefsText.DecimalReadsBack` | src/prefs.cpp:389-454 | what %d prints of an int32, atol reads back |
| `PrefsText.DecimalIsBaseTen` | src/prefs.cpp:453-454 | %d prints in base ten, highest digit first, with a minus sign for negative numbers |
| `PrefsText.PrintedLineParses` | src/prefs.cpp:385-407 | a printed line is taken whole and parsed to its keyword and value |
| `PrefsText.ParsedIsPlain` | src/prefs.cpp:385-407 | whatever text is read, a value has no line break or leading white space and fits a line with its keyword |
| `PrefsText.OverrunsIffNotReadable` | src/prefs.cpp:386-401 | one line makes the program look behind it if and only if it is neither empty as a C string, nor a comment, nor has white space before its last character |
| `PrefsList.LoadSucceedsIff` | src/prefs.cpp:382-432 | a text loads, whatever is described and stored, if and only if none of its lines does |
| `PrefsText.EmptyLineOverruns` | src/prefs.cpp:398-401 | an empty line does |
| `PrefsText.LastLineLosesItsEnd` | src/prefs.cpp:386-390 | the last line loses its last character if no newline follows |
| `PrefsText.LongLineIsCut` | src/prefs.cpp:384-385 | a line without a newline in its first 253 characters is cut after 254 |
| `PrefsLoad.SpacedLineParses` | src/prefs.cpp:398-407 | a keyword, any white space and a value make up a setting, taken as a whole line |
| `PrefsLoad.CommentIsSkipped` | src/prefs.cpp:392-394 | a line that begins with # or ; changes nothing |
| `PrefsLoad.LoadedAnswers` | src/prefs.cpp:382-432 | for every list and every text that loads: a described single-valued item answers with the value on the last line that names it, as before if none does; truth values are true exactly for the text true; a multiple string gets the values of its lines, in order, after those it had |
| `PrefsLoad.UndescribedStays` | src/prefs.cpp:409-414 | names without a descriptor keep all their values |
| `PrefsList.PositionHoldsValue` | src/prefs.cpp:273-287 | the index-th node of a name and type exists exactly when there are that many values, and holds that value |
| `PrefsList.AddEffect` | src/prefs.cpp:233-251 | adding appends to the values of one name and type and to no other |
| `PrefsList.ReplaceEffect` | src/prefs.cpp:289-315 | replacing changes or adds one value of one name and type and no other |
| `PrefsList.RoundTrip` | src/prefs.cpp:382-467 | for all lists: loading what was saved answers every question about a described item alike if and only if the described strings can be written |
| `PrefsList.SameStrings` | src/prefs.cpp:322-329 | equal value sequences are equal answers for every index |
| `PrefsList.SaveShowsAnswers` | src/prefs.cpp:439-461 | lists with the same answers are saved as the same text |
| `PrefsList.LoadKeepsWritable` | src/prefs.cpp:382-432 | whatever text is loaded, the resulting strings can be written |
| `Prefs.Fgets` | src/prefs.cpp:385-386 | takes text up to a newline, at most 254 characters, into the buffer |
| `Prefs.ParseBuffer` | src/prefs.cpp:387-407 | taking the line apart in place yields what the line says |
| `Prefs.Preferences.AddData` | src/prefs.cpp:233-251 | appends one node at the end of the linked list |
| `Prefs.Preferences.FindNode` | src/prefs.cpp:273-287 | the walk finds the index-th node of a name and type, null if there is none |
| `Prefs.Preferences.PrefsReplace` | src/prefs.cpp:289-315 | overwrites that node or appends one |
| `Prefs.Preferences.PrefsFindString` | src/prefs.cpp:322-329 | the index-th string of a name |
| `Prefs.Preferences.PrefsFindBool` | src/prefs.cpp:331-338 | the first truth value, false if none |
| `Prefs.Preferences.PrefsFindInt32` | src/prefs.cpp:340-347 | the first number, 0 if none |
| `Prefs.Preferences.LoadPrefsFromStream` | src/prefs.cpp:382-432 | the loop over lines computes the abstract loading, or stops at a line that overruns |
| `Prefs.Preferences.SavePrefsToStream` | src/prefs.cpp:439-467 | writes the text of the common and then the platform items |

## Left out

- 68k execution, traps, ROM and resource patches, driver code, texts and gamma tables: foreign code and constants; in the declaration ROM they are parameters of whole words.
- The Slot Manager calls of a mode switch are replaced by a reader written after Inside Macintosh: Devices, chapter 2.
- Host pointers are offsets from the host base; wrapping of host pointers, and a host base that is not even, are not modelled.
- Allocation failure, path length limits and C string limits other than those named above.
- SCSIStat and SCSIMgrBusy return a field; the 2060 board workaround, message and timeout handling of the SCSI back end, and the other hosts' back ends.
- ScsiManager.Manager.ExecTib: nothing bounds the program's loop, so a number of steps after which the TIB stops is required as a ghost witness; TIBs that never stop have no outcome here.
- ScsiManager.Manager.Complete: assumes that less than 4 GB were asked for, because beyond that the recorded total is not the table's length and the copy loops leave the buffer.
- ScsiAdapter.Adapter.SendCommand: the data length is the sum of the table's lengths, because otherwise the copy loops leave the buffer; a device answer shorter than asked leaves older buffer bytes in the rest of the transfer, as in the program; a faked sense reply is spread over a single-entry table without a size check, so the buffer is assumed to be large enough there.
- SysFile.FileHandle.Write: says nothing about the contents of device and buffers when 0 is returned, since parts may have been read or written.
- SysFile.FileHandle.Read: likewise says nothing about the buffers when 0 is returned.
- File branches of Sys_read and Sys_write, formatting, ejecting and the CD calls.
- Pathname parsing: an object is named by a directory ID and one guest name, because the parser rests on routines of the Mac's File System Manager.
- Path joining and character encodings are parameters of the platform; the host file system is an oracle for presence and renaming.
- Descendants of a moved directory: the program leaves their items alone, so no claim is made that their IDs follow it.
- CatalogueCache.CacheAgreesWithRecount: for items whose time stamp starts at 0; the program does not initialise the root item's.
- CatalogueCounts.AnswersOfRunIff: for paths that are directories at every query, with stamps later than the item started with; `CatalogueCache.AnswerRepeats` says what is answered otherwise. Host answers are given per query, without a model of how the host's files change.
- ExtFs.Volume.DirCount: the count is a number; the program stores its low 16 bits in the parameter block, together with the file's other information.
- CatalogueTargets.RenameConcernsTarget: for encodings that undo each other and names of at most 31 characters; a longer name makes a new item at every lookup (`CatalogueNames.GuestLookupRepeatsIff`). The same holds for CatalogueTargets.MoveConcernsTarget.
- CNIDs are unbounded numbers; the counter's wrap at 2^32 is not modelled.
- TimeManager.Manager.PrimeTime: the smallest int32 as a delay is excluded, because its negation is undefined.
- ExtFs.Volume.Resolve: one guest name below a directory ID; paths of several components are outside it.
- TimerFiring.OverdueTaskFires: for tasks that no timer function inserts, removes or primes during the interrupt; `TimerFiring.TimerFunctionRuns` covers a function that primes its own task.
- TimerModel.EveryRunRefines: task records do not overlap, and the guest changes their address, count and wakeup words but not their flags; the disabled queue code is left out.
- Seconds of host times are signed, so that the clauses of `MacTime.EncodingIsCloseIff` and `TimerModel.ResumeKeepsRemainingTime` about negative times describe the intended behaviour: in AmigaOS's `timeval` the seconds are unsigned, a difference of times never tests as negative, and its header is not part of this model.
- Palettes, gamma tables, device control entries and the video driver's other calls.
- VideoRom.MacRom.InstallSlotROM: slot IDs must be such that a reader can tell them apart; the image must fit the 4096-byte buffer, which the program does not check.
- Prefs.Preferences.LoadPrefsFromStream: on a line without white space the program goes on reading behind the line; the model stops there. Numbers beyond a long have no defined value and are not modelled as such.
- PrefsRemoveItem (removing the first node drops the whole list), command line options and the preference editors.
- ADB, audio, serial, Ethernet, clipboard, window code and CD address conversions: input and output, or easy beside the above.
