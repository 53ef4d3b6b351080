# Firmware updater core, modelled in Dafny

This project models the HEX flashing engine of the web ISP tool's firmware updater (`isp/js/firmware-updater.js`, class `FirmwareUpdater`). The updater flashes an STM32F446 through its USB DFU bootloader, and it must never erase the emulated EEPROM in flash sectors 1 to 3. The model covers:

- **Intel HEX reader** (`_parseIntelHex`), module `IntelHex`.
  - It reads record types 00 (data), 01 (end of file) and 04 (extended linear address).
  - It ignores every other type and never checks checksums.
  - Records that are byte-contiguous join one segment.
  - Fields are read with JavaScript's `parseInt(_, 16)`, `substr` and `trim`. These are modelled in module `JsText`, NaN results included, over integers and code points: see "## Left out" for two edges, numbers above 2^53 and characters outside the Basic Multilingual Plane.
  - Module `HexText` states what the reader makes of a well-formed record line (`HexText.DecodeRecordLine`), and reads the finding's file below back into its two segments (`HexText.FindingHexParses`).
  - `x << 16` is modelled as JavaScript's signed 32-bit shift (`JsText.ShiftLeft16`, built on `JsText.ToInt32`), not as a multiplication over the naturals. `IntelHex.ExtendedAddressValue` states the consequence: a record value below 0x8000 gives `value * 65536`, and a larger one gives that minus 2^32.
- **Safety filter** (`_filterSafeSegments`), module `Segments`. A segment is kept only if all of it lies in sector 0 (0x08000000-0x08003FFF) or in sectors 4 to 7 (0x08010000-0x0807FFFF).
- **Sort and merge** (the middle of `_flashFirmwareHex`), module `SegmentMerge`.
  - The sort is the stable `Array.prototype.sort` by address.
  - The merge joins neighbours that overlap or are less than 4096 bytes apart.
  - The merged buffer is prefilled with 0xFF and the later data wins.
- **Flash loop** (the end of `_flashFirmwareHex`), modules `FlashEngine`, `FlashImage` and `FlashHex`.
  - Each merged segment gets one erase, then chunks of at most 2048 bytes. A chunk is SET_ADDRESS (DfuSe command 0x21), a download to block 2, and a poll until dfuDNLOAD-IDLE.
  - After the last segment there is one manifestation at the first segment's address.
  - A failure of the final poll for dfuMANIFEST is ignored.
- **Bootloader** (module `Dfu`).
  - A class `Device` records every call in `log`. The calls numbered in `fails` throw.
  - `CellAfter` gives the byte at an address after a sequence of calls. It uses the default memory map the updater installs (`FlashLayout`, lines 535-550).
- **The updater object** (module `Updater`, class `FirmwareUpdater`).
  - It holds `updateState` and `dfuDevice`. A ghost `trail` records every value given to `updateState`.
  - It models `_connectDFU` with its state normalisation, `_leaveDFUMode`, `_recoverFromError` and the `performUpdate` state and error flow.
- **Version comparison and firmware URL** (`_compareVersions` and `_getFirmwareUrl`), modules `Versions` and `FirmwareUrl`.

Imperative code is modelled as methods proved against specification functions:
- the parser loop (`IntelHex.ParseLines` against `IntelHex.ParseFrom`);
- the merge loop (`SegmentMerge.MergeSegments` against `SegmentMerge.Merge`);
- the flash loop (`FlashEngine.FlashSegments` against `FlashEngine.FlashRun`);
- the `FirmwareUpdater` methods against `Updater.UpdateOutcome`, `Updater.AttemptCalls` and `Updater.StatesVisited`; on an error, `Updater.FirmwareUpdater.PerformUpdate` also states the recovery calls made on the device then held.

The properties of those functions are lemmas.

The merge rule is a parameter of the flash and of every updater method. `AsWritten` is the merge of lines 664-668. `SectorAware` is the corrected rule of the finding below. The end-to-end results about the device are:
- `Updater.AttemptKeepsEeprom` and `Updater.UpdateKeepsEeprom`: under either rule and whatever an update's outcome, its calls, and those of the recovery after it, leave every byte outside sector 0 and sectors 4 to 7 unchanged.
- `Updater.UpdateWritesImage`: under the corrected rule, an update that succeeds leaves every address the safe segments of the HEX image cover holding that segment's byte.
- `Updater.AsWrittenUpdateLosesByte`: under the rule as written, this does not hold. An update with the finding's file succeeds, yet leaves 0xFF at 0x08010000, where the file gives 0x11. `Updater.SectorAwareUpdateKeepsByte` shows that the same update keeps 0x11 under the corrected rule.

Some code is not part of this model: `dfu.js`, `dfuse.js` and the server side. What the DfuSe library does on `erase` and `download` is therefore stated as an assumption in `Dfu.CellAfterOp`:
- an erase clears every sector that holds a byte of the range;
- a block-2 download stores its bytes from the address pointer on.

## Model

| member | source | states |
|---|---|---|
| JsText.TrimStartStrips | isp/js/firmware-updater.js:766 | trimming the start removes exactly the leading white space: the result is a suffix, it does not start with white space, and every removed character was white space |
| JsText.TrimEndStrips | isp/js/firmware-updater.js:766 | trimming the end removes exactly the trailing white space |
| JsText.TrimStrips | isp/js/firmware-updater.js:766 | a trimmed line starts and ends with no white space and is a contiguous piece of the original line |
| JsText.SplitPartsFree | isp/js/firmware-updater.js:760 | no piece of a split contains the separator |
| JsText.JoinSplit | isp/js/firmware-updater.js:760 | joining the pieces of a split with the separator gives back the text |
| JsText.SplitPrefix | isp/js/firmware-updater.js:760 | text without the separator, put in front, extends the first piece of the split |
| JsText.SplitJoin | isp/js/firmware-updater.js:760 | splitting pieces joined with a separator they do not contain gives back the pieces |
| JsText.SplitLinesJoin | isp/js/firmware-updater.js:760 | lines without line feeds or a trailing carriage return, joined with line feeds, are split at `\r?\n` back into the same lines |
| JsText.DigitPrefixLongest | isp/js/firmware-updater.js:769 | `parseInt` reads the longest run of digits at the front of the field |
| JsText.ToInt32 | isp/js/firmware-updater.js:796 | the operand of `<<` is wrapped into the signed 32-bit range: NaN becomes 0, a number becomes the one in that range equal to it modulo 2^32, and a number already in the range is kept |
| JsText.ShiftLeft16 | isp/js/firmware-updater.js:796 | `x << 16` is the operand's 32-bit value times 65536, wrapped modulo 2^32 into the signed 32-bit range; NaN gives 0 |
| IntelHex.ReadDataBytes | isp/js/firmware-updater.js:776-779 | filling `new Uint8Array(byteCount)` gives the field bytes: empty for a NaN count, a RangeError for a negative count, otherwise each pair of hex characters parsed and stored modulo 256 (0 for a pair that does not parse) |
| IntelHex.ReadRecord | isp/js/firmware-updater.js:766-797 | reads one line into the record the reader acts on; `HexText.DecodeRecordLine` states what that record is for a well-formed line |
| HexText.ParseHexBytes | isp/js/firmware-updater.js:769-772 | `parseInt` of a data field written as hex digits is the bytes' big-endian value, and NaN for an empty field |
| HexText.ParseHexByte | isp/js/firmware-updater.js:769-778 | `parseInt` of a byte written as two hex digits gives back the byte |
| HexText.ParseHex4 | isp/js/firmware-updater.js:770 | `parseInt` of a 16-bit offset written as four hex digits gives back the offset |
| HexText.DecodeRecordLine | isp/js/firmware-updater.js:766-797 | a record line `:CCAAAATT<data>KK`, with any white space around it, is read as the data at its offset for type 00, the end of the file for type 01, an extended address holding the data's value (NaN when empty) for type 04, and an ignored record for any other type; the checksum plays no part |
| HexText.DecodeBare | isp/js/firmware-updater.js:766-797 | the same for a record line with no white space around it |
| HexText.FindingHexParses | isp/js/firmware-updater.js:759-803 | the finding's four-line file (extended address 0x0801, 0x11 at offset 0, 0x22 at offset 0x2000, end of file) is read into one-byte segments at 0x08010000 and 0x08012000 |
| IntelHex.ApplyRecord | isp/js/firmware-updater.js:774-797 | a data record goes to extended address plus offset and is appended to the open segment exactly when it starts where that segment ends, otherwise the open segment is pushed and a new one opened; a type-04 record sets the extended address to `value << 16`; any other record changes nothing |
| IntelHex.ParseLines | isp/js/firmware-updater.js:765-802 | the loop over the lines returns what the reader specification gives for the decoded lines: stops at end of file, fails on a negative byte count, and always pushes the open segment |
| IntelHex.ParseIntelHex | isp/js/firmware-updater.js:759-803 | `_parseIntelHex` splits at `\r?\n` and returns the reader specification's result for the whole text |
| IntelHex.ParseFromNext | isp/js/firmware-updater.js:765-797 | a record that neither fails nor ends the file hands the rest of the file a reader in the state that record leaves |
| IntelHex.IgnoredRecordChangesNothing | isp/js/firmware-updater.js:767-797 | a line without `:` or a record of a type other than 00, 01 and 04 can be removed from anywhere in the file without changing the result |
| IntelHex.EndOfFileStops | isp/js/firmware-updater.js:793-794 | nothing after an end-of-file record can change the result |
| IntelHex.ParseFailsIff | isp/js/firmware-updater.js:769-794 | reading fails exactly when a data record with a negative byte count comes before every end-of-file record |
| IntelHex.CellsAppend | isp/js/firmware-updater.js:782-787 | appending a contiguous record to a segment appends its bytes, at their own addresses, to the segment's bytes |
| IntelHex.AddDataCells | isp/js/firmware-updater.js:781-792 | a data record adds exactly its own bytes at its absolute address to the output, whether it is appended or starts a new segment |
| IntelHex.ParseFromCells | isp/js/firmware-updater.js:765-800 | the bytes of the output are, in order, the bytes already emitted followed by the data bytes of the remaining records up to end of file, each at extended address plus offset |
| IntelHex.ParseHexCells | isp/js/firmware-updater.js:759-803 | every data byte of the file appears once in the output, in file order, at its absolute address, and nothing else does |
| IntelHex.ParseHexSeparated | isp/js/firmware-updater.js:782-792 | no output segment starts exactly where the one before it ends |
| IntelHex.ExtendedAddressValue | isp/js/firmware-updater.js:795-796 | for a 16-bit value `v`, `v << 16` is `v * 65536` below 0x8000 and `v * 65536 - 2^32` from 0x8000 up |
| Segments.IsSafeIff | isp/js/firmware-updater.js:615-628 | a segment passes exactly when its address is a number and all of `[address, address + length)` lies in 0x08000000-0x08004000 or in 0x08010000-0x08080000 |
| Segments.FilterSafeSegments | isp/js/firmware-updater.js:620-633 | every kept segment is safe and comes from the input, and every safe input segment is kept |
| Segments.FilterCounts | isp/js/firmware-updater.js:620-633 | each safe segment is kept exactly as often as the input holds it, and an unsafe one never; with `Segments.FilterKeepsOrder` this fixes the result |
| Segments.FilterKeepsOrder | isp/js/firmware-updater.js:620-633 | the kept segments are a subsequence of the input, in input order; a partly safe segment is dropped, not cut |
| Segments.FilteredAvoidsEeprom | isp/js/firmware-updater.js:607-618 | no byte of a kept segment lies outside flash or in the EEPROM sectors 0x08004000-0x08010000 |
| SegmentMerge.InsertPermutes | isp/js/firmware-updater.js:652 | one insertion step adds exactly the inserted segment |
| SegmentMerge.InsertSorted | isp/js/firmware-updater.js:652 | one insertion step keeps a sorted list sorted |
| SegmentMerge.SortPermutes | isp/js/firmware-updater.js:652 | the sort returns the same segments, each as often as before |
| SegmentMerge.SortSorts | isp/js/firmware-updater.js:652 | the sort returns the segments in address order |
| SegmentMerge.SortIsStable | isp/js/firmware-updater.js:652 | segments at the same address keep their relative order |
| SegmentMerge.SortSortedIsIdentity | isp/js/firmware-updater.js:652 | sorting a sorted list changes nothing |
| SegmentMerge.CombineByteAt | isp/js/firmware-updater.js:672-685 | in a merged segment the later segment's byte wins, the earlier one shows where the later does not reach, the rest of the span up to the farther end is 0xFF, and nothing lies outside it |
| SegmentMerge.CombineInto | isp/js/firmware-updater.js:672-685 | the buffer filled with 0xFF, then the current data, then the next data at its offset, is the combined segment |
| SegmentMerge.MergeFromNext | isp/js/firmware-updater.js:658-690 | one step of the merge: a segment that should merge is folded into the current one, otherwise the current one is pushed and the next one becomes current |
| SegmentMerge.MergeLoopStep | isp/js/firmware-updater.js:658-690 | one pass of the merge loop keeps the pushed segments plus the rest of the fold equal to the merge of the whole list |
| SegmentMerge.MergeSegments | isp/js/firmware-updater.js:653-691 | the merge loop returns the merge of the sorted segments |
| SegmentMerge.MergeFrom | isp/js/firmware-updater.js:655-691 | merging a current segment with the rest never yields an empty list |
| SegmentMerge.MergeFromShape | isp/js/firmware-updater.js:655-691 | the first merged segment starts where the current one does and reaches at least as far; no two neighbours of the result would be merged |
| SegmentMerge.MergeIsSpaced | isp/js/firmware-updater.js:653-691 | the merged segments are sorted, each ends at least 4096 bytes before the next starts, there are no more of them than inputs, and the first starts at the first input's address |
| SegmentMerge.MergeFromLength | isp/js/firmware-updater.js:653-691 | the fold yields at most one segment per input |
| SegmentMerge.MergeFromApart | isp/js/firmware-updater.js:653-691 | segments that are already apart are returned unchanged |
| SegmentMerge.MergeIdempotent | isp/js/firmware-updater.js:653-691 | merging the merged segments again changes nothing |
| SegmentMerge.MergeFromBounds | isp/js/firmware-updater.js:672-685 | merged segments cover nothing before the current segment's start or beyond the farthest end |
| SegmentMerge.MergeFromValues | isp/js/firmware-updater.js:672-691 | where some input covers an address, the merged segments give it the byte of the last such input; elsewhere they give 0xFF or nothing |
| SegmentMerge.MergeValues | isp/js/firmware-updater.js:653-691 | merging does not change what is written: every covered address keeps its last-written byte, a gap byte is 0xFF, and nothing lies outside the first start and the farthest end |
| SegmentMerge.MergeFromSafe | isp/js/firmware-updater.js:664-668 | merging segments that lie in the safe ranges yields segments that lie in them |
| SegmentMerge.MergeKeepsSafety | isp/js/firmware-updater.js:664-668 | merging sorted segments that all pass the safety filter yields only segments that would pass it: a merged span never bridges the EEPROM sectors |
| FlashLayout.FindSegment | isp/js/firmware-updater.js:535-550 | a memory segment found for an address is in the map and holds the address |
| FlashLayout.FindDefault | isp/js/firmware-updater.js:535-550 | the lookup in the default map, case by case over the eight sectors |
| FlashLayout.SectorOf | isp/js/firmware-updater.js:535-550 | an address is in flash exactly when it is in 0x08000000-0x08080000, and its sector is the one the default map lists for it |
| FlashLayout.SectorIsSegment | isp/js/firmware-updater.js:535-550 | each entry of the default map is a single sector |
| FlashLayout.SectorAround | isp/js/firmware-updater.js:535-550 | the sector of an address contains it and lies inside flash |
| FlashLayout.SectorsMonotone | isp/js/firmware-updater.js:535-550 | the sectors of two flash addresses come in address order and are either the same sector or disjoint |
| FlashLayout.SectorsRespectEeprom | isp/js/firmware-updater.js:535-550 | no sector straddles a border of the EEPROM sectors 1 to 3 |
| Dfu.Device.Call | isp/js/firmware-updater.js:705-723 | a call is appended to the log, succeeds exactly when its number is not scripted to fail, and on success moves the device state |
| Dfu.Device.ReadState | isp/js/firmware-updater.js:555 | `getState()` returns the device state, or nothing when it throws |
| Dfu.Device.ReadStatus | isp/js/firmware-updater.js:853 | `getStatus()` returns the state from the status reply, or nothing when it throws |
| Dfu.CellAfterConcat | isp/js/firmware-updater.js:702-751 | running two sequences of calls is running the first, then the second from the byte and pointer the first left |
| Dfu.GuardedPrefix | isp/js/firmware-updater.js:702-751 | a sequence of calls that stays in the safe ranges still does when cut short |
| Dfu.GuardedConcat | isp/js/firmware-updater.js:702-751 | two sequences that stay in the safe ranges stay there together |
| Dfu.GuardedKeepsProtected | isp/js/firmware-updater.js:607-618 | calls that erase and write only inside sector 0 and sectors 4 to 7 leave every byte outside them unchanged |
| FlashEngine.FirstFailureConcat | isp/js/firmware-updater.js:702-751 | the first uncaught failure of two call sequences is that of the first, or that of the second after all of the first |
| FlashEngine.FirstFailureIsFirst | isp/js/firmware-updater.js:747-751 | the first uncaught failure is the first call that throws other than the poll for dfuMANIFEST |
| FlashEngine.WriteFailureFollows | isp/js/firmware-updater.js:702-735 | a failure while erasing or writing ends the flash with that call's error, after exactly the planned calls up to it |
| FlashEngine.ManifestFollows | isp/js/firmware-updater.js:737-751 | a failure of the manifestation request ends the flash with a manifestation error; a failure of the poll does not |
| FlashEngine.FlashRunFollowsPlan | isp/js/firmware-updater.js:702-751 | the calls made are the planned calls cut after the first uncaught failure, and the flash passes exactly when there is none |
| FlashEngine.Issue | isp/js/firmware-updater.js:705-723 | one planned call is made; when it throws, the calls made are the plan up to that call |
| FlashEngine.WriteChunk | isp/js/firmware-updater.js:713-723 | one chunk makes SET_ADDRESS at `address + bytes_sent`, a block-2 download of `min(remaining, 2048)` bytes and a poll until dfuDNLOAD-IDLE, stopping at the first that throws |
| FlashEngine.CountBytes | isp/js/firmware-updater.js:698-699 | `totalBytes` is the sum of the merged segment lengths |
| FlashEngine.WriteSegment | isp/js/firmware-updater.js:703-734 | one erase over `(address, length)`, then the chunks; on success the bytes written grow by the segment length |
| FlashEngine.ChunkStep | isp/js/firmware-updater.js:712-727 | the chunk at `bytes_sent` comes next in the plan and advances `bytes_sent` by the chunk size |
| FlashEngine.WriteAllStep | isp/js/firmware-updater.js:702-735 | the next segment's calls come next in the plan, and its length is added to the count |
| FlashEngine.WriteAll | isp/js/firmware-updater.js:702-735 | the segment loop makes the planned erase and write calls up to the first failure, and on success has written `totalBytes` bytes |
| FlashEngine.FlashSegments | isp/js/firmware-updater.js:698-751 | the calls and the outcome of the erase, write and manifestation phase are those of the flash plan cut at its first uncaught failure; a successful run writes exactly `totalBytes` bytes |
| FlashEngine.FailedWriting | isp/js/firmware-updater.js:702-735 | a write call that throws ends the flash with that call's error |
| FlashEngine.ManifestFailure | isp/js/firmware-updater.js:739-751 | of the manifestation calls, only the SET_ADDRESS and the zero-length download can fail the flash |
| FlashEngine.Manifest | isp/js/firmware-updater.js:737-751 | SET_ADDRESS to the first segment's address and a zero-length download of block 0 fail the flash as a manifestation error; the poll for dfuMANIFEST is made and its failure ignored |
| FlashHex.Prepare | isp/js/firmware-updater.js:641-692 | when no error is thrown before the device is used, the flash loop receives at least one segment |
| FlashHex.FlashFirmwareHex | isp/js/firmware-updater.js:641-751 | `_flashFirmwareHex` parses, filters, sorts, merges and flashes; its calls and outcome are those of the HEX flash specification |
| FlashHex.PreparedSegments | isp/js/firmware-updater.js:641-692 | the merged segments are non-empty, lie in the safe ranges, have no two neighbours that should merge, and hold every byte the sorted safe segments give a value |
| FlashHex.RejectedHexMakesNoCall | isp/js/firmware-updater.js:642-649 | a text that fails to parse, or has no safe segment, throws before any device call |
| FlashHex.HexFlashGuarded | isp/js/firmware-updater.js:641-751 | whatever the text and whichever calls throw, the calls made erase and write only inside sector 0 and sectors 4 to 7 |
| FlashHex.HexFlashKeepsProtected | isp/js/firmware-updater.js:607-618 | flashing any HEX text never changes a byte outside sector 0 and sectors 4 to 7 |
| FlashHex.HexFlashWritesImage | isp/js/firmware-updater.js:641-751 | with the corrected merge rule, a successful flash leaves every byte the sorted safe segments give a value at that value |
| FlashImage.DownloadedConcat | isp/js/firmware-updater.js:720 | the data downloaded by two call sequences is that of the first followed by that of the second |
| FlashImage.ChunkHeadFacts | isp/js/firmware-updater.js:716-723 | a chunk downloads its slice of the segment, writes it at `address + bytes_sent`, and stays in the safe ranges |
| FlashImage.ChunkHeadData | isp/js/firmware-updater.js:720 | a chunk downloads `data.slice(bytes_sent, bytes_sent + chunk_size)` |
| FlashImage.ChunkHeadCell | isp/js/firmware-updater.js:716-723 | after a chunk, the bytes from `address + bytes_sent` on hold the chunk's data |
| FlashImage.ChunkHeadPointer | isp/js/firmware-updater.js:717 | after a chunk, the address pointer is the chunk's address |
| FlashImage.ChunkHeadGuarded | isp/js/firmware-updater.js:716-723 | a chunk of a safe segment writes only inside the safe ranges |
| FlashImage.ManifestFacts | isp/js/firmware-updater.js:741-742 | manifestation writes no byte and stays in the safe ranges |
| FlashImage.ChunksCover | isp/js/firmware-updater.js:712-726 | the chunks download exactly the segment's bytes from `bytes_sent` on, so the chunk sizes sum to the segment length |
| FlashImage.ChunkSizes | isp/js/firmware-updater.js:712-726 | every chunk download carries between 1 and 2048 bytes, and the chunk calls come in threes |
| FlashImage.ChunkOpsEffect | isp/js/firmware-updater.js:712-726 | the chunks write the rest of the segment at its addresses and leave every other byte alone |
| FlashImage.SegmentOpsEffect | isp/js/firmware-updater.js:705-734 | after the erase and the chunks of a segment, its bytes hold its data, the rest of its sectors 0xFF, everything else as before |
| FlashImage.WriteOpsEffect | isp/js/firmware-updater.js:702-735 | the segment loop applies the segments one after the other |
| FlashImage.FlashOpsEffect | isp/js/firmware-updater.js:702-751 | the whole plan leaves the flash as the segment loop does: manifestation writes nothing |
| FlashImage.EraseEndCovers | isp/js/firmware-updater.js:705 | the erase of a segment reaches to the end of the sector of each of its bytes |
| FlashImage.Untouched | isp/js/firmware-updater.js:702-735 | segments that all start past an address, and past the end of its sector, leave that address unchanged |
| FlashImage.FlashedSeparated | isp/js/firmware-updater.js:702-735 | when no two neighbours would merge under the corrected rule, no later erase reaches an earlier segment's byte, so each covered byte holds its segment's value |
| FlashImage.MergedFlashKeepsBytes | isp/js/firmware-updater.js:653-751 | with the corrected merge rule, every byte the sorted segments give a value ends up in flash with that value |
| FlashImage.AsWrittenKeepsApart | isp/js/firmware-updater.js:664-668 | the merge as written leaves one-byte segments at 0x08010000 and 0x08012000 unmerged |
| FlashImage.AsWrittenLosesBytes | isp/js/firmware-updater.js:664-705 | flashing those two segments as written leaves 0xFF at 0x08010000, where the image has 0x11 |
| FlashImage.SecondErasesFirst | isp/js/firmware-updater.js:705 | the erase for the segment at 0x08012000 clears the byte at 0x08010000 |
| FlashImage.ChunkOpsGuarded | isp/js/firmware-updater.js:712-726 | the chunks of a safe segment write only inside the safe ranges |
| FlashImage.WriteOpsGuarded | isp/js/firmware-updater.js:702-735 | the erase and write calls for safe segments stay in the safe ranges |
| FlashImage.PlanGuarded | isp/js/firmware-updater.js:702-751 | every erase and write of the plan stays inside sector 0 or sectors 4 to 7 |
| FlashImage.FlashRunKeepsProtected | isp/js/firmware-updater.js:702-751 | whichever calls throw, the calls made leave every byte outside the safe ranges unchanged |
| FlashImage.EepromProtected | isp/js/firmware-updater.js:607-609 | the EEPROM bytes 0x08004000-0x08010000 are outside the safe ranges |
| FirmwareUrl.FindHexLink | isp/js/firmware-updater.js:339-342 | `find` returns nothing exactly when no link is named with `hex` or addressed with `.hex` |
| FirmwareUrl.FindHexLinkFirst | isp/js/firmware-updater.js:339-345 | the link found is the first HEX link |
| FirmwareUrl.UrlErrorsIff | isp/js/firmware-updater.js:317-353 | "release lacks HEX" exactly when the manifest's firmware has neither a permanent `.hex` file nor a `hex` field; "no HEX asset" exactly when, without a manifest, there are links and none is a HEX link; "no firmware URL" exactly when there is neither a manifest nor a link |
| FirmwareUrl.UrlComesFromHexMarker | isp/js/firmware-updater.js:317-353 | a returned URL comes from the manifest's permanent artifact marked HEX, its `hex` field, or the first HEX asset link (its direct URL or its URL); with a manifest the links are never read |
| FirmwareUrl.DeclaredHexMayNameBin | isp/js/firmware-updater.js:323-324 | an artifact declared `type: "hex"` but named `fw.bin` yields `./latest/fw.bin` |
| Versions.CompareVersions | isp/js/firmware-updater.js:371-388 | the loop with early returns answers exactly whether `latest` is newer than `current` |
| Versions.LexGreaterIff | isp/js/firmware-updater.js:379-385 | newer means greater at the first of the three places where the numbers differ |
| Versions.LexIrreflexive | isp/js/firmware-updater.js:379-387 | a key is never greater than itself |
| Versions.LexTransitive | isp/js/firmware-updater.js:379-387 | the order on keys is transitive |
| Versions.LexTotal | isp/js/firmware-updater.js:379-387 | different keys are ordered one way, and never both |
| Versions.NewerIsStrictOrder | isp/js/firmware-updater.js:371-388 | equal versions give false; never newer both ways; transitive; total on distinct keys |
| Versions.LeadingVIgnored | isp/js/firmware-updater.js:373-374 | one leading `v` makes no difference |
| Versions.MissingIsZero | isp/js/firmware-updater.js:373-381 | a missing version reads as 0.0.0 |
| Updater.NormaliseReachesIdle | isp/js/firmware-updater.js:554-561 | when no call throws, connecting leaves the bootloader in dfuIDLE from any state; one found idle is only asked for its state |
| Updater.RecoverReachesIdle | isp/js/firmware-updater.js:853-858 | the recovery brings the bootloader to dfuIDLE before it closes it |
| Updater.SessionCallsNoWrites | isp/js/firmware-updater.js:530-561 | connecting and recovering neither erase nor download |
| Updater.ConnectSplits | isp/js/firmware-updater.js:530-564 | when `open()` throws, connecting stops there; otherwise it is `open()` followed by the normalisation, which succeeds exactly when the whole sequence does |
| Updater.SessionConnectFails | isp/js/firmware-updater.js:530-569 | an `open()` that throws fails the update with a connection error |
| Updater.FetchedSession | isp/js/firmware-updater.js:120-168 | once the text is fetched, the update's outcome is that of connecting and flashing it |
| Updater.FetchFails | isp/js/firmware-updater.js:120-140 | an error while fetching the text is the update's error |
| Updater.HexFlashErrors | isp/js/firmware-updater.js:641-751 | under either merge rule, the flash throws only range, no-segment, call and manifestation errors |
| Updater.FetchStates | isp/js/firmware-updater.js:129-140 | an error while fetching is thrown after DOWNLOADING, if that was set, and before any other state |
| Updater.StatesReachedSplit | isp/js/firmware-updater.js:116-183 | the states set are DOWNLOADING, if set, followed by those of the session |
| Updater.StatesVisitedShape | isp/js/firmware-updater.js:116-199 | an update ends in COMPLETE exactly when it succeeds and in ERROR exactly when it fails, after a prefix of the progression that never reaches COMPLETE |
| Updater.UpdateKeepsEeprom | isp/js/firmware-updater.js:116-199 | calls that stay in the safe ranges, as the contract of `PerformUpdate` states of every update and recovery, leave every EEPROM byte and every byte outside flash unchanged, whatever the outcome |
| Updater.AttemptGuarded | isp/js/firmware-updater.js:120-184 | under either merge rule and whichever calls throw, every call of the `try` block erases and writes only inside sector 0 and sectors 4 to 7 |
| Updater.AttemptKeepsEeprom | isp/js/firmware-updater.js:116-184 | under either merge rule and whatever the outcome, the calls of an update leave every EEPROM byte and every byte outside flash unchanged |
| Updater.Recovered | isp/js/firmware-updater.js:185-193 | the recovery calls from any state, cut at the first that throws, release the device exactly when none threw, and write nothing |
| Updater.UpdateWritesImage | isp/js/firmware-updater.js:116-184 | under the corrected merge rule, a successful update leaves every byte the safe segments of the HEX image cover at that byte's value; the connection calls and the final close write nothing |
| Updater.FindingFiltered | isp/js/firmware-updater.js:620-633 | both segments of the finding's file pass the safety filter |
| Updater.FindingPrepared | isp/js/firmware-updater.js:641-692 | the finding's file parses, its safe segments sorted are the two one-byte segments in sector 4, and the flash loop receives their merge under the rule in use |
| Updater.PreparedUpdatePasses | isp/js/firmware-updater.js:116-184 | a local HEX file that prepares into some segments, sent to a bootloader in dfuIDLE with no call throwing, is flashed whole: `open()`, `getState()`, the flash of those segments and `close()` |
| Updater.FindingUpdatePasses | isp/js/firmware-updater.js:116-184 | under either rule, the update with the finding's file succeeds, with those calls |
| Updater.AsWrittenUpdateLosesByte | isp/js/firmware-updater.js:116-184 | under the merge as written, that update succeeds, yet the byte 0x11 the file gives 0x08010000 reads 0xFF afterwards |
| Updater.SectorAwareUpdateKeepsByte | isp/js/firmware-updater.js:116-184 | under the corrected rule, the same update leaves 0x11 at 0x08010000 |
| Updater.FirmwareUpdater.constructor | isp/js/firmware-updater.js:63-64 | a new updater is IDLE and holds no device |
| Updater.FirmwareUpdater.ConnectDfu | isp/js/firmware-updater.js:500-570 | with no DFU device it fails with a connection error; otherwise it holds the device before `open()`, makes `open()` and the normalisation calls up to the first failure, fails only when `open()` throws, and leaves the device idle when no call threw |
| Updater.FirmwareUpdater.NormaliseState | isp/js/firmware-updater.js:554-564 | reads the state, clears an error state, aborts unless idle; stops silently at the first call that throws, and otherwise leaves the device in dfuIDLE |
| Updater.FirmwareUpdater.LeaveDfuMode | isp/js/firmware-updater.js:829-843 | closes a held device and forgets it unless `close()` throws; with none held nothing happens |
| Updater.FirmwareUpdater.RecoverCalls | isp/js/firmware-updater.js:852-862 | `getStatus()`, `clearStatus()` on dfuERROR, `abort()`, `close()`, stopping at the first that throws; `ok` exactly when none threw |
| Updater.FirmwareUpdater.RecoverFromError | isp/js/firmware-updater.js:849-863 | makes the recovery calls on the held device and forgets it exactly when all of them succeeded; never throws |
| Updater.FirmwareUpdater.Fetch | isp/js/firmware-updater.js:121-140 | a local file with a name not ending in `.hex` is refused; otherwise DOWNLOADING is set, and a missing URL, a URL not ending in `.hex` or a failed download is refused; the held device is untouched |
| Updater.FirmwareUpdater.ConnectAndFlash | isp/js/firmware-updater.js:159-168 | sets CONNECTING_DFU, connects, sets FLASHING only once connected, and flashes with the given merge rule; the outcome and the calls (`open()` alone when it throws) are the specification's, the device is held, and every write stays in the safe ranges |
| Updater.FirmwareUpdater.FlashConnected | isp/js/firmware-updater.js:164-168 | sets FLASHING and flashes the text with the given merge rule; its calls and outcome are those of the HEX flash, it throws only flash errors and writes only inside the safe ranges |
| Updater.FirmwareUpdater.Session | isp/js/firmware-updater.js:147-183 | WAITING_DFU or ENTERING_DFU, then CONNECTING_DFU, FLASHING, REBOOTING and COMPLETE as far as the session gets; its calls are the connection and the flash, and `close()` when they succeed; a failed session still holds the device, a successful one forgets it unless `close()` throws |
| Updater.FirmwareUpdater.Reboot | isp/js/firmware-updater.js:172-179 | sets REBOOTING, calls `close()` and sets COMPLETE; the device is forgotten unless `close()` throws |
| Updater.FirmwareUpdater.Attempt | isp/js/firmware-updater.js:120-184 | the `try` block's outcome is the update specification's; the states set are the progression up to the error; its calls, for every outcome, are none on a fetch error and otherwise the connection, the flash and, on success, `close()`; a failure after the fetch leaves the new device held |
| Updater.FirmwareUpdater.CatchRecover | isp/js/firmware-updater.js:187-193 | with a device held, the recovery calls are appended to its log up to the first that throws, and the device is forgotten exactly when none threw; nothing escapes and nothing is written |
| Updater.FirmwareUpdater.PerformUpdate | isp/js/firmware-updater.js:116-199 | the outcome is the update specification's, with the original error rethrown; the updater ends COMPLETE exactly on success and ERROR otherwise, after the states of the progression it reached; every run's calls on the new device are the `try` block's, followed on an error by the recovery calls up to the first that throws, the device being forgotten exactly when none threw; an error before the connection recovers the device held from before, if any; no call writes outside the safe ranges |

## Left out

- Checksums: `_parseIntelHex` never checks record checksums, and neither does the model. The SHA-256 path and `_flashFirmwareBinary` are not modelled.
- `checkForUpdates`, `_getLatestRelease`, `_getManifest`, `_getCurrentVersion` and the constructor's choice of update source are not modelled: they are network I/O and serial parsing. Only `_getFirmwareUrl` and `_compareVersions` are.
- Updater.FirmwareUpdater.Fetch: `_downloadFirmwareText` is not part of this model. The downloaded text, or its failure, is the parameter `downloaded`.
- Updater.FirmwareUpdater.ConnectDfu: WebUSB discovery (`getDevices`, `requestDFUDevice`, `findDeviceDfuInterfaces`) is the parameter `device`, null when no device with a DFU interface is found. A device that does describe its own memory is not modelled: the default STM32F446 map of lines 535-550 is assumed.
- Updater.FirmwareUpdater.Session: `_enterDFUMode` (the SCPI command over the serial port) is not modelled. As written it catches its own errors and makes no call on the bootloader. The 3-second sleep in `_leaveDFUMode`, the status, progress and error callbacks, `onComplete`, `_setupDfuLogging` and all console output are left out.
- FlashEngine.FlashSegments: the progress percentage is floating point and is not modelled. The byte counter it is computed from is.
- Dfu.CellAfterOp: `dfuse.js` is not part of this model. An erase is assumed to clear every sector that holds a byte of its range, and a zero-length erase nothing. A block-2 download is assumed to store its bytes at the address pointer, as a plain store rather than a flash program, which could only clear bits.
- SegmentMerge.SortByAddress: `Array.prototype.sort` runs in place in the source. It is modelled as a stable insertion sort on values, because the updater relies only on its result.
- SegmentMerge.MergeSegments: the source reassigns `current.data` on an object that is also an element of `safeSegments`. The model works on values, so that aliasing is not captured; nothing reads the aliased array afterwards.
- JsText.ToLowerAscii: `toLowerCase` is modelled for ASCII letters only. The `.hex` tests compare against ASCII text, so other characters cannot affect them.
- Versions.Normalise: `(v || '').toString()` is modelled for string or missing versions only. A number version is out of scope.
- FirmwareUrl.GetFirmwareUrl: the URL is documented as strictly HEX, but the code trusts a declared `type: "hex"` and a `hex` field whatever file they name. The model follows the code (`FirmwareUrl.DeclaredHexMayNameBin`). `performUpdate` refuses such a URL anyway, because it does not end in `.hex` (`Updater.FirmwareUpdater.Fetch`).
- JsText.ParseInt: numbers are mathematical integers, so a `parseInt` result above 2^53 is not rounded to the nearest double. A type-04 record whose data field is `20000000000801` gives 0x08000000 in JavaScript and 0x08010000 in the model, after `<< 16`; both addresses are then filtered as usual. `Versions.CompareVersions` likewise finds `9007199254740993` newer than `9007199254740992`, which JavaScript rounds to the same number. HEX files from real tools have at most a two-byte type-04 field.
- JsText.Substr: strings are sequences of code points, while `substr` counts UTF-16 code units. A character outside the Basic Multilingual Plane takes two units in JavaScript and one here, so the fields of a line containing one are read at other positions (`":" + U+1F600 + "0000004"` is read as type 00 there and as type 04 here). HEX files are ASCII.

## Findings

| source | as written | input that shows it | evidently intended | confidence | as-written member | corrected member |
|---|---|---|---|---|---|---|
| isp/js/firmware-updater.js:664-668 | segments are merged only when they overlap or the gap is under 4096 bytes, but flash sectors are 16 KB to 128 KB, and each unmerged segment gets its own erase of whole sectors | two one-byte segments, 0x11 at 0x08010000 and 0x22 at 0x08012000 (both in sector 4, 8 KB apart): they are not merged, and the erase for the second wipes sector 4, so 0x08010000 reads 0xFF | also merge a segment that starts inside the last sector erased for the current one, so that no erase clears bytes already written (the comment at line 665 says merging is meant to prevent a double erase of the same sector) | not executed | FlashImage.AsWrittenLosesBytes | FlashImage.MergedFlashKeepsBytes |
