# Models of six hard parts of the embedded controller firmware

Each part is a small group of modules. What the code changes in place is a class or an array here, with
methods that keep its loops and branches; what these methods compute is stated by functions, and what the
firmware promises is proved of those functions and of whole runs.

- **X25519** (`Zp`, `Field25519`, `Bytes25519`, `X25519`): ten signed limbs of 32 bits, products and carries of
  64 bits. `int32` and `int64` are bounded types, so every addition, product and shift that verifies also
  shows that it does not overflow. The result is the function of section 5 of RFC 7748.
- **The flash store** (`Flash`, and the modules whose names begin with `Nv`). A `Store` keeps page headers, the
  bytes of the listed pages, and the place of the next write. Ghost state gives its meaning: the log of all
  containers ever written, from the first one that is still in flash. The cipher is any function that undoes
  itself under the same salt, the hash any function to twelve bits. Above that layer there are only items and
  live objects: variables, saves of the cache, compaction and recovery.
- **PinWeaver** (`MerkleTree`, `PinWeaver`, `PinWeaverHistory`, `PinWeaverDevice`). Hashes are symbolic: distinct
  inputs have distinct digests, and none is all zeros. So a root can be read as the tree it stands for. A ghost
  trace of what the requests did says what the state has to be.
- **The event log** (`FlashLogEntries`, `FlashLog`, `FlashLogRun`, `FlashLogMisread`).
- **Base32 with CRC-5 groups** (`Bitwise`, `BitStrings`, `Crc5`, `Base32Text`, `Base32`, `Base32Decode`).
- **The CEC receive queue** (`CecQueue`).

`Common` and `Arithmetic` hold what they share. `dafny verify dfyconfig.toml` checks all of it.

## Findings

Where the code does not do what its comments, headers or names say, the model follows the code.

- **Compaction can write an object twice.** When it cannot start on an empty page, compaction stops at the
  last page (common/new_nvmem.c:1075-1108). If the container before that page is deleted, the reader
  steps over it and one more object has been copied. `NvCompact.PreservedIff` has the exact condition:
  nothing is lost or doubled if and only if there is a free page (or the current one is empty), or the last
  container before the page is visible, or the next one is not live.
- **A set can be without effect after that.** `setvar_` replaces the first instance of a tuple that it finds, and
  the second one is the old value that `getvar` then returns. `NvVars.Vars.SetVar` says exactly when;
  `NvTwice.SetIgnored` is a device with two pages on which a successful call changes nothing. A save of the
  cache, on the other hand, removes duplicates of evictable objects.
- **Unknown PCR numbers.** `process_pcr` refuses numbers larger than the number of PCRs, not those equal to it
  (common/new_nvmem.c:2505). So of all numbers that are not known it accepts one, that after the last PCR
  (`NvPlan.FindReserved`), and looks it up behind its tables. `NvSave.SaveCache` answers `OutOfBounds` then and
  promises nothing; `NvSave.SaveBeyond` is a device on which that happens. A number or size that is refused
  ends a save in the middle, and leaves its new containers without a delimiter; they are undone at the next
  start (`NvSave.SaveAndRestart`).
- **The HMAC of a leaf covers four bytes of its IV**, since the size is that of a constant and not of the field
  (common/pinweaver_cr50.c:195-196). A leaf is accepted with any other IV that starts with the same four bytes
  (`PinWeaverDevice.Device.IvTailIgnored`); what acceptance does imply is equality in all that is covered.
- **Replay at the cap.** A failed try leaves a count of UINT32_MAX where it is, but log replay adds one to the
  count of the leaf it is given, and wraps to zero. Replay repeats the logged leaf if and only if the
  try succeeded or the count was below the cap (`PinWeaverDevice.Device.ReplayOfLogged`).
- **A reset of the tree that is half stored.** If the first of its two variables is stored and the second is not,
  the device goes on with the old tree, and after a restart has the new shape and key over the old root.
  No leaf is accepted then, and an insertion succeeds where the old root holds an empty digest on a path of
  the new shape (`PinWeaverDevice.Device.Restart`, `PinWeaverDevice.Device.SameShapeHolds`). Runs with such
  failures are covered by `PinWeaverDevice.Device.Run`.
- **Decoding a part of a text with CRCs.** include/base32.h says that a short destination decodes the first
  part of a bit stream. With CRC groups it is an error unless the destination takes part of the last symbol
  (`Base32Decode.PartOfText`), because the loop ends with a group open.
- **The reader of the event log** gets the first later entry of all, or learns that there is none, if and only if
  it passes zero, or less than the timestamp it was last given, or no less than the entry before the read cursor
  (`FlashLog.Log.DequeueEvent`, `FlashLogEntries.RightExactly`). The cursor also
  moves over entries that are not given out, so a reader that passes 5 and then 2 misses an entry of time 3
  (`FlashLogMisread.OneAndThree`; `FlashLogMisread.GoBack` for any log and any such values). A reader that never
  passes less than it did before, except for zero, is always right (`FlashLogRun.Serve`), and one that passes
  back the last timestamp it was given reads the whole log (`FlashLogRun.Traverse`). Timestamps increase until
  the last one is UINT32_MAX (`FlashLogEntries.NextStampIncreases`).
- **Failure counts of the event log** are reported modulo 256, not capped at 255 as a comment says
  (common/flash_log.c:355-370).
- **A full event log page is taken for a corrupted one** if and only if a search that starts at an entry runs to
  its end and the bytes behind the page do not look erased (`FlashLog.Log.DequeueEvent`).
  `FlashLogMisread.FillUp` fills a page with sound entries until that is answered.

## Model

| member | source | states |
|---|---|---|
| X25519.ScalarMultiply | common/curve25519-generic.c:771-821 | for every scalar and point the output bytes are the x coordinate that the ladder of RFC 7748, section 5 computes, over integers mod 2^255 - 19; no step overflows |
| X25519.Iteration | common/curve25519-generic.c:790-812 | one round with its deferred swap goes from rung n of the reference ladder to rung n + 1, and re-establishes all limb bounds |
| X25519.SwapTwice | common/curve25519-generic.c:791-794 | swapping by the exclusive or of two bits is undoing one swap and doing the next |
| X25519.SameMultiple | common/curve25519-generic.c:804-810 | BB + 121666 E is AA + 121665 E |
| X25519.FeCswap | common/curve25519-generic.c:696-705 | the masked exchange of two limb arrays, by a bit |
| X25519.FeInvert | common/curve25519-generic.c:634-690 | the addition chain computes the power p - 2, and is safe when input and output are one array |
| X25519.ClampValue | common/curve25519-generic.c:777-780 | masking three bytes is the clamping of the standard, on the number they write |
| Field25519.FeMul | common/curve25519-generic.c:277-491 | the limbs returned stand for the product mod p and are within 1.01 * 2^25 and 2^24, for any input within 1.65 * 2^26 and 2^25, in whatever way the arrays are aliased |
| Field25519.FeSq | common/curve25519-generic.c:503-632 | the square mod p, within the bounds of a product, from 55 products of limbs instead of a hundred |
| Field25519.SameLimbs | common/curve25519-generic.c:503-632 | the factors determine the limbs that come out, so squaring gives those that multiplying a value by itself gives |
| Field25519.CarriedValue | common/curve25519-generic.c:397-481 | the carry chain keeps the value mod p |
| Field25519.FeMul121666 | common/curve25519-generic.c:715-769 | the product with the constant, mod p, within bounds |
| Field25519.FeAdd | common/curve25519-generic.c:227-232 | the sum mod p, within the sum of the bounds |
| Field25519.FeSub | common/curve25519-generic.c:243-248 | the difference mod p, within the sum of the bounds |
| Bytes25519.FeFromBytes | common/curve25519-generic.c:55-100 | 32 bytes give limbs of their little-endian value mod 2^255 |
| Bytes25519.QuotientIsExact | common/curve25519-generic.c:128-140 | the quotient estimated from the top is that of the value by p, for all limbs in bounds |
| Bytes25519.FeToBytes | common/curve25519-generic.c:124-202 | the 32 bytes write the one representative of the value in 0 to 2^255 - 20 |
| NvDevice.Store.SaveContainer | common/new_nvmem.c:2863-2885 | appends a container to the log, over a page boundary if it has to; fails exactly when it would use up the last byte that is left |
| NvDevice.Store.WriteAcross | common/new_nvmem.c:1165-1212 | a container split over two pages lies in flash like one in a single page |
| NvDevice.Store.Next | common/new_nvmem.c:777-875 | the next container of the log from any place a reader can be at, with its bytes; at the end the tracker is where the next container goes |
| NvReadBack.WriteAndRead | common/new_nvmem.c:548-631 | any containers for which there is room are written, over any number of pages, and are read back in order behind those that were there; the reader ends at the writer's place |
| NvStore.GetNextObject | common/new_nvmem.c:777-875 | the same on the bytes of the pages: which item is returned, which are stepped over, and where the tracker is |
| NvLayout.HeaderRoundTrip | include/new_nvmem.h:79-86 | a container header survives its bit fields |
| NvDevice.Store.Invalidate | common/new_nvmem.c:1949-1957 | erasing the type of a container deletes just that item |
| NvDevice.Store.ReleaseFirstPage | common/new_nvmem.c:925-946 | the containers that start on the first page are given up, and no others |
| NvCompact.Compact | common/new_nvmem.c:949-1130 | ends; afterwards the live objects are those before it when it starts on an empty page, and otherwise in closed form; pages before the fence are released; it fails only when the live objects and a delimiter do not fit |
| NvCompact.PreservedIff | common/new_nvmem.c:1075-1108 | compaction loses and doubles nothing if and only if a condition on its start holds |
| NvCompact.StopsAt | common/new_nvmem.c:1032-1112 | where the reader is when compaction stops, although it looks only at pages |
| NvTwice.LeftTwice | common/new_nvmem.c:1075-1108 | a log of three containers that compaction leaves with its one tuple twice |
| NvTwice.SetIgnored | common/new_nvmem.c:2887-2990 | on a device with such a log, whose first page was filled by an evictable object that was deleted, a successful set leaves the key with the old value |
| NvVars.Vars.GetVar | common/new_nvmem.c:2831-2850 | the value of the key in the map of live tuples |
| NvVars.Vars.SetVar | common/new_nvmem.c:2887-2990 | a successful set changes its own key only, and takes effect unless compaction doubled its tuple; the exact error conditions; when keys stay unique and the counted space is theirs |
| NvVars.Vars.SetTo | common/new_nvmem.c:2918-2989 | success, overflow and a full store are told apart exactly, and the first tuple of the key is replaced |
| NvVars.Vars.BaseIs | common/new_nvmem.c:2911-2916 | compaction changes the value of no key, and leaves a second tuple of a key only if it was doubled |
| NvVarMap.SetInIs | common/new_nvmem.c:2952-2989 | a set takes effect unless another tuple of the key remains |
| NvVarMap.SecondValue | common/new_nvmem.c:2796-2829 | which value a key has without its first tuple, when objects are turned around and one is there again |
| NvVars.CountVars | common/new_nvmem.c:2272-2334 | the space counted at startup is that of all keys and values |
| NvSave.SaveCache | common/new_nvmem.c:2663-2779 | a save leaves one container per cached evictable object, the cached bytes of the reserved ones and new PCRs, and all tuples; it succeeds if and only if what is new fits, not too many objects are to be deleted, no object is refused or has the number after the last PCR, and power lasts beyond the new containers; each failure has its cause, and lost power or a refusal leaves the old items and a beginning of the new ones |
| NvSave.Save | common/new_nvmem.c:2663-2687 | the same after a compaction, for what that left: what a success needs and leaves, the cause of each failure, and what lost power or a refusal leaves |
| NvSave.SaveAndRestart | common/new_nvmem.c:2272-2334 | power lost after any number of containers up to the last before the delimiter, or a refused object, and the startup after it: the live objects are those before the save, if there was room for it, and the containers for which power lasted are there, but deleted |
| NvPlan.FindReserved | common/new_nvmem.c:2492-2579 | which numbers and sizes are found in the cache; of the others exactly the number after the last PCR is not refused |
| NvSave.SaveBeyond | common/new_nvmem.c:2504-2509 | a device with one reserved object of that number, on which a save goes on behind the table of PCRs |
| NvPlan.Saved | common/new_nvmem.c:2581-2651 | the objects that stay, the updates and the additions are what flash is to hold, with duplicates of handles in flash as well |
| NvPlan.Evicted | common/new_nvmem.c:2587-2630 | swapping the last entry into the place of the one that was met loses no cached object |
| NvPlan.AddedTakes | common/new_nvmem.c:2663-2737 | the bytes a save is counted to need are those of its new containers |
| NvSave.ScanAll | common/new_nvmem.c:2696-2721 | the loop ends at the fence, although it writes behind it, and has done what is planned for each item |
| NvSave.ProcessObject | common/new_nvmem.c:2581-2631 | an evictable object is kept, updated or deleted as the list of unmet objects has it |
| NvSave.ProcessReserved | common/new_nvmem.c:2492-2579 | a reserved object or PCR is kept or updated; when it is refused, and when its descriptor is none |
| NvRecover.VerifyDelimiter | common/new_nvmem.c:2156-2266 | exactly the containers since the last finalized delimiter are deleted; a missing delimiter is the only other outcome, and only when there is no room for one |
| NvRecover.Recover | common/new_nvmem.c:2272-2334 | after a rollback the flash is found consistent on the second reading, with the objects of the last complete transaction; what followed is deleted and closed by a delimiter |
| NvRecover.LiveRolledBack | common/new_nvmem.c:2183-2204 | deleting what comes after a point leaves the live objects up to it |
| MerkleTree.ClimbGets | common/pinweaver_cr50.c:208-239 | a path leads to a root if and only if it is the one path the root holds |
| MerkleTree.ClimbTrue | common/pinweaver_cr50.c:208-239 | the true siblings with one leaf replaced lead to the root of the tree with that leaf replaced, for any height and fan-out |
| MerkleTree.GetElsewhere | common/pinweaver_cr50.c:208-239 | replacing one leaf leaves what the root holds at every other label |
| PinWeaverHistory.PathIsGenuine | common/pinweaver_cr50.c:246-260 | authentication succeeds exactly for the leaf that is stored there, with its true siblings |
| PinWeaverDevice.ComputeRootHash | common/pinweaver_cr50.c:208-239 | the loop over levels computes the climb |
| PinWeaverDevice.EmptyRoot | common/pinweaver_cr50.c:152-181 | the root of a new tree is that of a tree without leaves |
| PinWeaverDevice.Device.ValidateRequestWithWrappedLeaf | common/pinweaver_cr50.c:525-572 | a leaf is accepted if and only if it is the stored one in all that the HMAC covers, with the path the root holds |
| PinWeaverDevice.Device.AcceptedIsLastWritten | common/pinweaver_cr50.c:525-572 | in every run the accepted leaf is the one last written at its label, its count is that of the failed tries since the last insertion, success or reset, and its delay the one that history demands |
| PinWeaverDevice.Device.IvTailIgnored | common/pinweaver_cr50.c:195-196 | an accepted leaf stays accepted with other bytes behind the first four of its IV, though it was not written so |
| PinWeaverHistory.DemandedDelayNeverDrops | common/pinweaver_cr50.c:585-638 | while tries at a label keep failing, whatever happens at others, the required delay never drops |
| PinWeaver.DelayNeverDrops | common/pinweaver_cr50.c:585-610 | for every schedule that is accepted, more attempts never mean less delay, zero filler in the middle included |
| PinWeaver.ValidateDelaySchedule | common/pinweaver_cr50.c:407-428 | exactly which schedules are accepted |
| PinWeaver.TestRateLimit | common/pinweaver_cr50.c:585-638 | when a try is refused, and that waiting for the time it answers with is enough |
| PinWeaver.LabelReachesRoot | common/pinweaver_cr50.c:392-401 | the labels that pass are those that end at the root |
| PinWeaverDevice.Device.HandleInsertLeaf | common/pinweaver_cr50.c:933-991 | when an insertion succeeds, and the leaf, the tree and the log entry it makes |
| PinWeaverDevice.Device.HandleRemoveLeaf | common/pinweaver_cr50.c:993-1023 | when a removal succeeds, what it removes and what it logs |
| PinWeaverDevice.Device.HandleTryAuth | common/pinweaver_cr50.c:1032-1143 | which requests count as tries, what a try writes whether it succeeds or fails, and that secrets are released exactly for the one the leaf was inserted with |
| PinWeaverDevice.Device.HandleResetAuth | common/pinweaver_cr50.c:1145-1202 | the count is reset exactly for the reset secret of the insertion |
| PinWeaverDevice.Device.HandleLogReplay | common/pinweaver_cr50.c:1255-1340 | replay succeeds exactly for a leaf that makes the logged one on the logged path |
| PinWeaverDevice.Device.ReplayOfLogged | common/pinweaver_cr50.c:1255-1340 | replay of the leaf before a try gives the answer of the try, if and only if the count was not at its cap |
| PinWeaverDevice.Device.HandleResetTree | common/pinweaver_cr50.c:905-931 | a full reset empties the tree; a failed one changes at most what a restart will load |
| PinWeaverDevice.Device.Restart | common/pinweaver_cr50.c:703-789 | a restart restores the tree that was stored, and after a half stored reset loads the new shape and key over the old root, with no leaf accepted |
| PinWeaverDevice.Device.SameShapeHolds | common/pinweaver_cr50.c:933-991 | where a leaf can be inserted after that, if the shape is the same |
| PinWeaverDevice.Device.Run | common/pinweaver_cr50.c:1495-1570 | any requests and reboots with flash failures anywhere: every answer is the one the history before it calls for; tries and resets are made with the leaf last written, not before its delay has run, and give secrets away for the right one only; no leaf is written over |
| FlashLog.CopyKept | common/flash_log.c:228-271 | compaction keeps the longest run of whole newest entries that fits the preserved space |
| FlashLog.Log.AddEventCore | common/flash_log.c:273-344 | what is in the log after an append, with or without compaction, when it fails, and that readers keep their place |
| FlashLog.Log.DequeueEvent | common/flash_log.c:387-443 | in a log in order the answer is right for the whole log if and only if the reader passes zero, less than the last timestamp given, or no less than that of the entry before the cursor; when a log is reported as corrupted; what a search without result leaves |
| FlashLogEntries.RightExactly | common/flash_log.c:395-418 | the entry found from the read cursor on is the first later one of all, or there is none at all, exactly under that condition |
| FlashLogMisread.GoBack | common/flash_log.c:387-443 | in any log in order, after a read past the last entry, one with a smaller value finds nothing, although the last entry is later |
| FlashLogMisread.OneAndThree | common/flash_log.c:387-443 | the entries 1 and 3, read with 5 and then with 2 |
| FlashLogMisread.FillUp | common/flash_log.c:403-414 | a page filled with sound entries, at the end of which corruption is reported |
| FlashLog.Log.ReadNext | common/flash_log.c:387-443 | a reader that passes back the last timestamp gets the first entry after it, or learns that there is none; corruption is reported of a full page only |
| FlashLogRun.Traverse | common/flash_log.c:387-443 | in every run of appends, compactions and reads, every read gives the first entry after the last one given, of the log as it is then, or all its entries have been given; timestamps increase |
| FlashLogRun.Serve | common/flash_log.c:387-443 | in every run of appends, compactions and reads that pass any values, a read that passes zero, or no less than was passed since zero, is answered rightly for the log as it is then |
| FlashLogEntries.NextStampIncreases | common/flash_log.c:311-318 | a new timestamp is later than the last if and only if that was not the largest |
| FlashLogEntries.OneChain | common/flash_log.c:457-471 | the entries found at startup are the only ones the page can be read as |
| FlashLog.Log.Init | common/flash_log.c:451-495 | what startup keeps, adds and reports |
| FlashLog.Restart | common/flash_log.c:451-495 | a log that starts again has the entries it had, less those a startup compaction drops |
| Crc5.CrcInjective | common/base32.c:22-26 | the CRC step is injective in the symbol and in the CRC so far |
| Base32Text.OneSymbolDetected | common/base32.c:129-172 | with CRC groups of any length, one symbol replaced by another always makes parsing fail |
| Base32Decode.TypoDetected | common/base32.c:113-175 | the same for characters of a text with separators |
| Base32Decode.TransposedDetected | common/base32.c:113-175 | two different neighbours of a group in the wrong order make decoding fail |
| Base32.Encode | common/base32.c:49-111 | the text is that of the bits, whatever is in the bits of the last byte and in the byte after it; when it fails |
| Base32Decode.Decode | common/base32.c:113-175 | the bits a text decodes to, in the buffer, or an error |
| Base32Decode.RoundTrip | common/base32.c:49-175 | decoding the encoded bits with the same length gives them back, for every group length the encoder accepts |
| Base32Decode.PartOfText | common/base32.c:130-172 | a shorter or longer destination: with CRC groups it is an error if and only if it ends before the last symbol |
| Base32Decode.SeparatorIgnored | common/base32.c:119-127 | spaces and dashes anywhere do not change what is decoded |
| CecQueue.Queue.Push | common/cec.c:64-102 | a push appends a message if and only if there is room for it; a failed one changes no message and commits nothing |
| CecQueue.Queue.Pop | common/cec.c:104-137 | the oldest message is returned intact and removed, around the end of the buffer as well |
| CecQueue.FlatInjective | common/cec.c:64-137 | the bytes in the buffer can be read as one list of messages only |

## Left out

- NvRecover.VerifyDelimiter: the recovery from a delimiter that was written but not finalized (common/new_nvmem.c:1985-2150) is not modelled; its scan stops when page or offset match, so it may stop early.
- NvSave.SaveAndRestart: power lost after the delimiter has been written is not covered, for the same reason; nor is power lost during a compaction.
- NvDevice.Store.SaveContainer: a write is whole; torn writes, write and erase failures, and pages that are taken out of use are not modelled, and a full store halts the device.
- NvDevice.Store.StartNewFlashPage: page numbers are unbounded, and free pages are found erased; the 21 bits of a page number, the order of erased pages and init_page_list are left out.
- NvSave.SaveCache: a handle keeps its size, since process_object writes the old size of an object; objects without a handle or a number do not occur.
- NvSave.SaveCache: marshaling of the cache is a parameter, and the results of saving PCRs, which the code ignores, end a save.
- NvVars.Vars.SetVar: a failure between its writes halts the device; the space is counted as it is on success.
- NvVars.Vars.GetVar: the memory the tuple is returned in is not modelled.
- PinWeaverDevice.Device.Run: every reset of the tree draws a key that has not been used; the keys are known by the number they are derived from.
- PinWeaverDevice.Device.HandleTryAuth: failures of the cipher, and the checks of version and size of stored variables; a request is no shorter than its fixed part.
- PinWeaverDevice.Device.HandleLogReplay: get_log and the conversion of older request formats are left out.
- FlashLog.Log.Init: a page whose end has an erased timestamp without being erased, and a corrupted page without memory for a compaction, are not modelled.
- FlashLog.Log.AddEventCore: locks are a parameter of each call, and calls are atomic.
- Field25519.FeMul: the products the source writes out one by one are two nested loops here.
- CecQueue.Queue.Push: interrupts between push and pop are not modelled; the calls are atomic.
- Key derivation, PCR reading, TPM structures, console and host commands: outside these parts.
- common/event_log.c, common/audio_codec_wov.c, common/crc8.c, common/base64.c and the small helpers: each is one loop or one ring, with properties weaker than those proved here of the event log, the CEC queue and Base32.
