# Sprig game store and serial upload, in Dafny

This project models the flash game store of the Sprig console firmware
(`firmware/spade/src/rpi/upload.h`) and proves properties of the model.
The store has two fixed tables in flash:

- a **metadata directory** of 16 `Game` records, where an all-zero record
  means "empty";
- a region of 7 **slots** of 100 KiB each. A slot is "occupied" when its
  first bytes equal `SPRIG_MAGIC`.

The model covers:

- the geometry macros;
- the read-only scans over the two tables;
- `get_games`, `set_game`, `save_read` and the save-version helpers;
- the in-place mutators `delete_game`, `consolidate_metadata` and
  `consolidate_flash_games`, and the "dangerous" user erase;
- the upload state machine `upl_stdin_read` / `upl_flush_buf`. It reads a
  128-byte name and a 4-byte little-endian length, reserves a slot and a
  directory entry, erases the slot and streams the engine script into it.
  It then streams the body page by page and writes the magic last.

Modules, one per concern:

| file | module | contents |
|---|---|---|
| `geometry.dfy` | `Geometry` | constants, `GAME_SLOTS`, the erase lengths of an upload, the user-erase range |
| `records.dfy` | `Records` | `Game`, pages, the magic, erase/program of pages |
| `scans.dfy` | `Scans` | the directory and slot queries and `get_games` |
| `versions.dfy` | `Versions` | `get_save_version`, `update_save_version` |
| `occupancy.dfy` | `Occupancy` | counting and weighting used cells, the termination measure of both consolidation loops |
| `consolidation.dfy` | `Consolidation` | the state of both consolidation scans as predicates, and what one move or one shift does |
| `store.dfy` | `Store` | the class `FlashStore` and its in-place operations |
| `upload.dfy` | `Upload` | the class `UplState` (`upl_state`) and the upload |

The representation works at the index level:

- **Directory.** The directory is an `array<Game>` of 17 cells. The extra
  cell 16 is the past-the-end entry that `consolidate_metadata` reads at its
  last iteration (`METADATA_CONTENTS[i+1]` at line 194). It is an explicit
  cell of its own, not a precondition. The relabelling loop of
  `consolidate_flash_games` (lines 215-223) reads only entries 0..15.
- **Slot region.** The slot region is a map from page index (counted from
  `FLASH_TARGET_START`, 400 pages per slot) to a 256-byte page. A page
  absent from the map reads as erased. Slot 7, the past-the-end slot that
  `consolidate_flash_games` reads at its last iteration
  (`FLASH_TARGET_CONTENTS(i+1)` at line 210), is part of the same region.
- **Erase and program.** Erase makes pages read as zeros, the value the code
  tests for. Program overwrites a page.
- **Input.** The serial input is a `seq<Option<byte>>`. `None`, or the end
  of the sequence, is a read that timed out.

## Model

| member | source | states |
|---|---|---|
| Geometry.GameSlots | firmware/spade/src/rpi/upload.h:29 | `GAME_SLOTS(b)` is at least 1 and is the fewest slots whose payload room (a slot less its magic page) exceeds `b`. |
| Geometry.GameSlotsBounds | firmware/spade/src/rpi/upload.h:29 | `GAME_SLOTS(b)` equals the ceiling of `b / 102144` except on positive multiples of 102144 and on 0, where it is one more. |
| Geometry.PageLen | firmware/spade/src/rpi/upload.h:330 | `page_len` is a whole number of pages, more than one page and at most two pages past `char_len`. |
| Geometry.SectorLen | firmware/spade/src/rpi/upload.h:331 | `sector_len` is a whole number of sectors, larger than `page_len` by at most one sector. |
| Geometry.UploadEraseLengths | firmware/spade/src/rpi/upload.h:329-331 | `page_len` is a whole number of pages and exceeds `char_len + 256`. `sector_len` is a multiple of the sector size and of the page size, is strictly larger than `page_len`, and covers more pages than the stream plus the magic page. |
| Geometry.UserEraseCoverage | firmware/spade/src/rpi/upload.h:56-58 | The dangerous erase is sector aligned. A directory page lies wholly inside it exactly when it is one of entries 0..15 or the past-the-end cell; a slot lies wholly inside it exactly when it is one of slots 0..6. The version page stays outside. |
| Records.MagicPageIsMagic | firmware/spade/src/rpi/upload.h:43 | The page programmed at a slot's base carries `SPRIG_MAGIC` (the 12 little-endian bytes of `{1337,42,69,420,420,1337}`); an erased page does not. |
| Records.EmptyIsAllZero | firmware/spade/src/rpi/upload.h:89 | An entry is empty exactly when every byte of it is zero: a 128-byte zero name, `Location_FLASH` (the zero enumerator), slot 0 and size 0. |
| Records.MagicTest | firmware/spade/src/rpi/upload.h:112 | A slot carries the magic exactly when its first page starts with the bytes 57 5 42 0 69 0 164 1 164 1 57 5; an erased page never does. |
| Records.ClearMagic | firmware/spade/src/rpi/upload.h:180 | Erasing `sizeof(SPRIG_MAGIC)` bytes of a page removes the magic and keeps every byte past the first 12. |
| Records.EraseRange | firmware/spade/src/rpi/upload.h:337 | After `flash_range_erase` of `count` pages from `from`, exactly those pages read as erased and every other page is unchanged. |
| Records.CopySlotDown | firmware/spade/src/rpi/upload.h:212 | Programming slot `dst+1` over slot `dst`: each page of slot `dst` now reads as the page 400 further on; every other page is unchanged. |
| Records.ClearMagicAt | firmware/spade/src/rpi/upload.h:213 | Erasing the magic of slot `s` leaves `s` without the magic and every other page unchanged. |
| Scans.Listing | firmware/spade/src/rpi/upload.h:87-98 | The records `get_games` copies: no empty record among them, and no more of them than entries. |
| Scans.CountEmpty | firmware/spade/src/rpi/upload.h:104-108 | The free-entry count of the first loop, at most the number of entries. |
| Scans.CountMagic | firmware/spade/src/rpi/upload.h:110-114 | The count of slots carrying the magic, at most the number of slots scanned. |
| Scans.ListingConcat | firmware/spade/src/rpi/upload.h:87-98 | The non-empty records of a concatenation are those of each part, in order. |
| Scans.ListingStep | firmware/spade/src/rpi/upload.h:89-97 | One more entry adds itself to the listing exactly when it is not empty. |
| Scans.ListingAndEmpties | firmware/spade/src/rpi/upload.h:105-107 | Every entry is either listed or counted as empty. |
| Scans.CountEmptyMonotone | firmware/spade/src/rpi/upload.h:105-107 | If every empty entry stays empty, the empty count does not fall. |
| Scans.AvailableGameSlots | firmware/spade/src/rpi/upload.h:103-118 | The result is the smaller of the empty-entry count and the count of slots 0..6 that carry the magic, as the code counts them. |
| Scans.HighestSlot | firmware/spade/src/rpi/upload.h:140-146 | The result bounds the `slot` of every non-empty record. It is 0 or the `slot` of some non-empty record. |
| Scans.LastOpenFlashSlot | firmware/spade/src/rpi/upload.h:139-149 | The result is at least 1 (1 on an empty directory) and exceeds every recorded slot. It is 1 or one past some record's slot. |
| Scans.NextSlotIgnoresSize | firmware/spade/src/rpi/upload.h:139-149 | The slot offered is one past the highest slot a record names, whatever that game's size; it lies inside that game when the game takes two slots or more. |
| Scans.CountUpTo | firmware/spade/src/rpi/upload.h:132-134 | `while (h++ < limit) n++` counts `limit - h` when `h < limit`, and 0 otherwise. |
| Scans.AvailableFlashSlotsAtEnd | firmware/spade/src/rpi/upload.h:120-137 | The result is `MAX_SLOTS - LastOpenFlashSlot` when positive, and 0 when the frontier is at or past slot 7. Every recorded slot plus the result stays below 7, unless the result is 0. |
| Scans.HighestUsedIndex | firmware/spade/src/rpi/upload.h:154-157 | Every entry after the result is empty. The result is 0 or a non-empty entry. |
| Scans.LastOpenMetadataSlot | firmware/spade/src/rpi/upload.h:151-165 | The result is -1 exactly when entry 15 is in use. Otherwise it lies in 1..15, is one past the last used entry, and every entry from it to 15 is empty. |
| Scans.PutGame | firmware/spade/src/rpi/upload.h:92-97 | `++n`, doubling when the buffer is full, then the write: the prefix up to `n` and the old tail are kept, and the new record is at `n+1`. |
| Scans.GetGames | firmware/spade/src/rpi/upload.h:84-101 | Returns the number of non-empty records. They are at indices 1..n in directory order; index 0 and the rest of the caller's buffer are unchanged; the buffer only grows. |
| Versions.GetSaveVersion | firmware/spade/src/rpi/upload.h:62-67 | 2 exactly for "1.1.0", otherwise 1. |
| Versions.UpdateSaveVersion | firmware/spade/src/rpi/upload.h:69-81 | 1 exactly when flash holds format 1 and the firmware expects format 2, otherwise 0. |
| Occupancy.UpdateOne | firmware/spade/src/rpi/upload.h:195-196 | Setting one cell changes the used count and the index sum by that cell's share only. |
| Occupancy.MoveDown | firmware/spade/src/rpi/upload.h:195-197 | Moving a used cell from `i+1` into an unused `i` keeps the count and lowers the index sum by one, the termination measure of both consolidation loops. |
| Occupancy.PrefixCount | firmware/spade/src/rpi/upload.h:111-114 | The used count of a prefix grows by the next cell. |
| Consolidation.CountMagicIsCount | firmware/spade/src/rpi/upload.h:111-114 | Counting magic slots one by one equals counting the flag vector. |
| Consolidation.MoveRecord | firmware/spade/src/rpi/upload.h:195-196 | Moving a record down into an empty entry keeps the listing of records and lowers the weight of used entries by one. |
| Consolidation.ShiftMovesMagic | firmware/spade/src/rpi/upload.h:212-213 | One shift moves the magic from slot `i+1` to slot `i`. It keeps the magic count over slots 0..7, and over 0..6 too unless the magic came from slot 7. The weight falls by one. |
| Consolidation.ShiftMagicAt | firmware/spade/src/rpi/upload.h:212-213 | After a shift, slot `i` has the magic, slot `i+1` has not, and no other slot's magic changed. |
| Consolidation.ShiftKeepsHigh | firmware/spade/src/rpi/upload.h:212-213 | A shift leaves every page from slot 8 on unchanged. |
| Consolidation.UsedDownTo | firmware/spade/src/rpi/upload.h:189-203 | In a directory dense from index 1 whose entry 15 is used, every entry from 1 on is used. |
| Consolidation.NoneEmpty | firmware/spade/src/rpi/upload.h:105-107 | A directory with no empty entry has empty count 0. |
| Consolidation.UsedFromOne | firmware/spade/src/rpi/upload.h:189-203 | In such a directory, only entry 0 can be empty. |
| Consolidation.SameEmptyCount | firmware/spade/src/rpi/upload.h:189-203 | Two directories with the same listing and empty past-the-end cells have the same empty count. |
| Consolidation.TwoEmpties | firmware/spade/src/rpi/upload.h:105-107 | Two leading empty entries give an empty count of at least 2. |
| Consolidation.RoomAfterConsolidation | firmware/spade/src/rpi/upload.h:314-319 | If an entry was free before `consolidate_metadata` and the past-the-end cell is empty, entry 15 is free afterwards. So the `metadata_i` of line 318 is never -1 once the space check passed. |
| Consolidation.MetaScanStart | firmware/spade/src/rpi/upload.h:190-192 | The scan invariant holds at `i = 0`, `last = 0`. |
| Consolidation.MetaScanMove | firmware/spade/src/rpi/upload.h:193-198 | A move keeps the invariant when the scan restarts at `last + 1`, and the weight falls. |
| Consolidation.MetaScanSkip | firmware/spade/src/rpi/upload.h:193-194 | Two empty entries in a row keep the invariant at `i + 1`. |
| Consolidation.MetaScanUsed | firmware/spade/src/rpi/upload.h:199-201 | A used entry keeps the invariant with itself as the restart point. |
| Consolidation.MetaScanSound | firmware/spade/src/rpi/upload.h:189-203 | From any state of the scan, the directory `MetaScanResult` leaves keeps the listing, is dense from index 1, refills entry 0 only from entry 1, keeps an empty past-the-end cell empty, and leaves a dense directory as it is. Proved by induction over the scan, one case per branch of the loop body. |
| Consolidation.MetadataConsolidation | firmware/spade/src/rpi/upload.h:189-203 | The same guarantees for the whole scan from `i = 0`. |
| Consolidation.ListingOfEmpties | firmware/spade/src/rpi/upload.h:87-98 | A run of empty entries lists nothing. |
| Consolidation.ListingAppend | firmware/spade/src/rpi/upload.h:313-319 | Writing a record into an entry after which every cell is empty appends it to the listing of entries 0..15. |
| Consolidation.Relabelled | firmware/spade/src/rpi/upload.h:215-223 | Every used entry among 0..15 naming slot `i+1` now names `i`. Every other cell, including the past-the-end cell, is unchanged. |
| Consolidation.FlashScanStart | firmware/spade/src/rpi/upload.h:206-208 | The flash scan invariant holds at `i = 0`, `last = 0`. |
| Consolidation.SlotScanShift | firmware/spade/src/rpi/upload.h:210-225 | After a shift, the slot side of the invariant holds at `last + 1`, and the weight of magic slots falls. |
| Consolidation.DirRelabelled | firmware/spade/src/rpi/upload.h:215-223 | Relabelling keeps every record a relocation of its original: only the slot is lowered, and empty cells and the past-the-end cell are kept. |
| Consolidation.ShiftContents | firmware/spade/src/rpi/upload.h:212-213 | A shift copies all 400 pages of slot `i+1` into slot `i`, and leaves every other slot but `i` and `i+1` as it was. |
| Consolidation.RelocationStart | firmware/spade/src/rpi/upload.h:205-208 | Before the first shift, the identity relocation describes the region and the directory. |
| Consolidation.RelocationShift | firmware/spade/src/rpi/upload.h:212-223 | A shift keeps the relocation: every slot that carried the magic (a game's first slot) lies, its 400 pages, at its relocated slot, no higher than before, in the original order, and every record that named it names the relocated slot. |
| Consolidation.GamesFollowShift | firmware/spade/src/rpi/upload.h:212-213 | The pages and the order of the games under one shift. |
| Consolidation.GamesMoveWhole | firmware/spade/src/rpi/upload.h:212-213 | Under one shift, every slot that carried the magic lies with its 400 pages at its relocated slot, which carries the magic and is no higher than the slot it started in. |
| Consolidation.GamesKeepOrder | firmware/spade/src/rpi/upload.h:212-213 | Under one shift, the slots that carried the magic keep their order. |
| Consolidation.GameMoves | firmware/spade/src/rpi/upload.h:212-213 | A game in a slot with the magic cannot be in the empty slot `i`; after the shift it lies in `i` if it was in `i+1`, and where it was otherwise, with the magic and the same 400 pages. |
| Consolidation.RecordsFollowShift | firmware/spade/src/rpi/upload.h:215-223 | Under one shift, every used record that named a game names the slot that game moved to. |
| Consolidation.FlashScanShift | firmware/spade/src/rpi/upload.h:210-225 | A shift keeps the whole scan invariant at the restart point, and the weight falls. |
| Consolidation.FlashScanSkip | firmware/spade/src/rpi/upload.h:209-210 | Two slots in a row without the magic keep the invariant at `i + 1`. |
| Consolidation.FlashScanUsed | firmware/spade/src/rpi/upload.h:227-229 | A slot with the magic keeps the invariant with itself as the restart point. |
| Consolidation.FlashScanDone | firmware/spade/src/rpi/upload.h:208-231 | At the end of the scan, the guarantees of `consolidate_flash_games` hold, including that every slot that carried the magic moved with its 400 pages and its records followed it. |
| Consolidation.PassKeepsResult | firmware/spade/src/rpi/upload.h:209-229 | One pass of the loop body, a shift or none, leads to the same final state of the scan. |
| Consolidation.ShiftStep | firmware/spade/src/rpi/upload.h:210-225 | After a shift, the scan resumes at `last + 1` and reaches the same final state. |
| Consolidation.PassStep | firmware/spade/src/rpi/upload.h:209-229 | Without a shift, the scan resumes at `i + 1`, with `i` as the restart point when slot `i` has the magic, and reaches the same final state. |
| Consolidation.ShiftResult | firmware/spade/src/rpi/upload.h:210-225 | If the final state after a shift meets the guarantees, so does the final state before it. |
| Consolidation.PassResult | firmware/spade/src/rpi/upload.h:209-229 | The same for a pass without a shift. |
| Consolidation.FlashScanSound | firmware/spade/src/rpi/upload.h:205-231 | From any state of the scan, the region and directory `FlashScanResult` leaves meet every guarantee of `consolidate_flash_games` (see `FlashConsolidation`). Proved by induction over the scan, one case per branch of the loop body. |
| Consolidation.SoundAfterShift | firmware/spade/src/rpi/upload.h:210-225 | The induction step for a shift. |
| Consolidation.SoundAfterSkip | firmware/spade/src/rpi/upload.h:209-210 | The induction step for two slots in a row without the magic. |
| Consolidation.SoundAfterUsed | firmware/spade/src/rpi/upload.h:227-229 | The induction step for a slot with the magic. |
| Consolidation.FlashConsolidation | firmware/spade/src/rpi/upload.h:205-231 | For the whole scan: the magic count over slots 0..7 is kept, and over 0..6 when slot 7 had no magic. No slot from 1 on without the magic precedes one with it, and slot 0 gains the magic only from slot 1. Each slot that carried the magic (a game's first slot) now lies, its 400 pages, in a slot no higher than before, in the same order, and every record that named it names its new slot. A game's later slots are not moved (`MultiSlotLost`). Records only have their slot lowered; empty entries, the past-the-end cell and flash past slot 7 are kept; a dense region is left as it is. |
| Consolidation.RecordsFollowGames | firmware/spade/src/rpi/upload.h:215-223 | After the scan, a record that named a slot carrying the magic names a slot, no higher, carrying the magic and the same 400 pages. So a directory whose records all named slots with the magic still does. |
| Consolidation.ScanIdle | firmware/spade/src/rpi/upload.h:206-231 | From a slot on which no slot up to 7 carries the magic, the scan changes neither the region nor the directory. |
| Consolidation.MultiSlotLost | firmware/spade/src/rpi/upload.h:205-231 | A game in slots 1 and 2 (magic at 1 only) followed by a game in slot 3: after the scan slot 0 holds the first game's first slot, its records name slot 0, and slot 1 holds the second game. The first game's second slot has been overwritten. |
| Store.EnterRecord | firmware/spade/src/rpi/upload.h:313-324 | Writing the record at the entry a directory offers, after a step that kept the listing, enters it: see `EnteredDirectory`. |
| Store.AppendAtOffered | firmware/spade/src/rpi/upload.h:318-319 | With the past-the-end cell empty, the record written at the offered entry is appended to the listing of entries 0..15. |
| Store.EmptyFromOffered | firmware/spade/src/rpi/upload.h:151-165 | With the past-the-end cell empty, every cell from the offered entry on is empty. |
| Store.ListingDropsPastEnd | firmware/spade/src/rpi/upload.h:87-98 | An empty past-the-end cell adds nothing to the listing. |
| Store.EntryTable | firmware/spade/src/rpi/upload.h:314-316 | The directory the record is written into: `consolidate_metadata`'s result when entry 15 is in use, the directory itself otherwise. |
| Store.OfferedEntry | firmware/spade/src/rpi/upload.h:318 | The entry offered to the record is -1 or an index in 0..15 from which on every entry is empty. |
| Store.EnterDir | firmware/spade/src/rpi/upload.h:314-324 | The directory after the record is written; its length is kept. |
| Store.EnteredDirectory | firmware/spade/src/rpi/upload.h:313-324 | The record is written at the offered entry, after which every entry is empty; when the directory was not consolidated exactly that entry changes. The listing of records is kept, and when the past-the-end cell is empty and some entry was free, the record is appended to it and an entry is always offered. Otherwise the record goes over the version page and the listing is kept. |
| Store.SlotChoice | firmware/spade/src/rpi/upload.h:304-311 | The region and directory an upload takes its slot from: unchanged when enough slots lie at the end, `consolidate_flash_games`' result otherwise. |
| Store.SlotChoiceKeepsEmpties | firmware/spade/src/rpi/upload.h:304-311 | No empty entry becomes used while the slot is chosen, and the past-the-end cell is kept. |
| Store.ChoiceLeavesRoom | firmware/spade/src/rpi/upload.h:304-311 | With room for at least one game, the directory the slot choice leaves still has a free entry. |
| Store.FlashStore.constructor | firmware/spade/src/rpi/upload.h:19-20 | A fresh store: every directory cell and the version page empty, all flash erased, `slot` 0 and `current_game` zero. |
| Store.FlashStore.SaveRead | firmware/spade/src/rpi/upload.h:45-54 | No save unless the active slot carries the magic. Otherwise the save starts one page past the slot's base. |
| Store.FlashStore.SetGame | firmware/spade/src/rpi/upload.h:167-172 | `current_game` becomes the game and `slot` its slot. |
| Store.FlashStore.Program | firmware/spade/src/rpi/upload.h:259-261 | Programming one page overwrites exactly that page. |
| Store.FlashStore.Erase | firmware/spade/src/rpi/upload.h:337 | The region after the erase is `EraseRange` of the region before it. |
| Store.FlashStore.DeleteGame | firmware/spade/src/rpi/upload.h:174-187 | Returns 1 exactly when some non-empty entry among 0..15 matches the key's slot and location. On 0 nothing changes. On 1 exactly the first matching entry is emptied, and the magic of slots `0..key.sizeB / SLOT_SIZE` is erased: counted from slot 0, not from the record's slot. Every other page is unchanged. |
| Store.FlashStore.ConsolidateMetadata | firmware/spade/src/rpi/upload.h:189-203 | The directory left is `MetaScanResult` of the old one, and it meets `MetaConsolidated`: the records and their order are kept, no empty entry from index 1 on precedes a used one, entry 0 is refilled only from entry 1, an empty past-the-end cell stays empty, and a dense directory is left as it is. |
| Store.FlashStore.ShiftSlot | firmware/spade/src/rpi/upload.h:212-223 | One shift: the region becomes `ShiftedPages` (copy down, then erase the magic of `i+1`), and the directory becomes `Relabelled`. |
| Store.FlashStore.FlashPass | firmware/spade/src/rpi/upload.h:209-229 | On a slot without the magic followed by one with it, exactly one `ShiftSlot` happens, the scan restarts at `last + 1` and the weight of magic slots falls. Otherwise the region and directory are unchanged and the scan moves on by one slot, with `i` as the restart point when it has the magic. Either way the scan reaches the same final state. |
| Store.FlashStore.ConsolidateFlashGames | firmware/spade/src/rpi/upload.h:205-231 | The region and directory left are `FlashScanResult` of the old ones, whose guarantees `FlashConsolidation` proves: each slot carrying the magic (a game's first slot) moves down with its 400 pages and in order, and its records follow it. Empty entries, the past-the-end cell and flash past slot 7 are kept. A game's later slots are not moved and can be overwritten (`MultiSlotLost`). |
| Store.FlashStore.EraseUserPortion | firmware/spade/src/rpi/upload.h:56-58 | Every directory cell and every page of slots 0..6 reads as erased. No slot 0..6 carries the magic, and everything from slot 7 on is kept. |
| Store.FlashStore.TakeSlot | firmware/spade/src/rpi/upload.h:304-311 | The region and directory become `SlotChoice` of the old ones: consolidated exactly when fewer than `need` slots lie at the end. `slot` becomes `get_last_open_flash_slot` of the resulting directory, truncated to 8 bits. |
| Store.FlashStore.TakeEntry | firmware/spade/src/rpi/upload.h:313-319 | The directory becomes `EnterDir` of the old one: consolidated when entry 15 is in use, then the record written at the offered entry and nothing else changed. The record goes over the version page exactly when the offer is -1. |
| Store.FlashStore.Reserve | firmware/spade/src/rpi/upload.h:293-324 | Succeeds exactly when `min(free entries, magic slots) >= GAME_SLOTS(size)`; on failure nothing changes. On success the region and directory are `SlotChoice` of the old ones, the slot is the one after the highest recorded, and the directory is `EnterDir` of the chosen one with the new record. The record goes over the version page only when no entry is offered, which cannot happen with an empty past-the-end cell. |
| Upload.LittleEndian | firmware/spade/src/rpi/upload.h:286 | `k` length bytes, stored one by one into a zeroed integer, hold a value below `256^k`. |
| Upload.LittleEndianRoundTrip | firmware/spade/src/rpi/upload.h:286 | Decoding the bytes a sender writes for `n` gives `n` back. |
| Upload.LittleEndianBytesOfValue | firmware/spade/src/rpi/upload.h:286 | Encoding the decoded value gives the same bytes back: every 4-byte field is the encoding of exactly one length. |
| Upload.NameLength | firmware/spade/src/rpi/upload.h:295 | The C-string length: the bytes before it are non-zero and the byte at it is NUL. |
| Upload.CName | firmware/spade/src/rpi/upload.h:295 | The name after `strcpy`: the bytes before the first NUL, then zeros. |
| Upload.CNameIdempotent | firmware/spade/src/rpi/upload.h:295 | Copying a copied name changes nothing, and a zero-padded name is copied as is. |
| Upload.NameLengthOf | firmware/spade/src/rpi/upload.h:295 | Any position before which all bytes are non-zero and at which the byte is NUL is the C-string length. |
| Upload.ChunkReadBack | firmware/spade/src/rpi/upload.h:355 | Stream byte `i` is byte `i % 256` of page `i / 256`. |
| Upload.ChunkBlank | firmware/spade/src/rpi/upload.h:263 | Pages past the end of a stream are blank. |
| Upload.ChunkStable | firmware/spade/src/rpi/upload.h:342-345 | A full page is not changed by later bytes. |
| Upload.ChunkAppend | firmware/spade/src/rpi/upload.h:355 | Appending a byte sets its place in the last partial page. |
| Upload.Target | firmware/spade/src/rpi/upload.h:362 | The uint32 `len - 1`: `len - 1` for `len >= 1`, and `2^32 - 1` for 0. |
| Upload.CharLen | firmware/spade/src/rpi/upload.h:326-328 | `len + sizeof(engine_script)` in uint32; exact below the wrap. |
| Upload.EraseBytes | firmware/spade/src/rpi/upload.h:330-331 | The uint32 `sector_len` is below `2^32` and a multiple of the sector size. |
| Upload.EraseBytesNoWrap | firmware/spade/src/rpi/upload.h:330-337 | Below the wrap, the erase length is `sector_len` as designed and covers the magic page and every stream page. |
| Upload.EraseBytesWraps | firmware/spade/src/rpi/upload.h:330-331 | For `char_len = 2^32 - 4096`, `sector_len` is `2^32`, which the uint32 holds as 0: the erase erases nothing. |
| Upload.BodyBytes | firmware/spade/src/rpi/upload.h:340-362 | Without wrap-around of `char_len`, the upload completes after exactly `declared` body bytes, so it never completes when `declared` is 0. When `char_len` wraps, the count is negative (`declared - 2^32` for a script below `2^32` bytes): `len_i` is already past `len - 1` once the script is streamed, and the upload never completes. |
| Upload.Declared | firmware/spade/src/rpi/upload.h:286 | The declared length is a uint32. |
| Upload.PageStep | firmware/spade/src/rpi/upload.h:357 | The page count grows by one exactly when a byte completes a page. |
| Upload.StreamLayoutKeep | firmware/spade/src/rpi/upload.h:355 | A byte that does not complete a page leaves the programmed pages unchanged. |
| Upload.StreamLayoutFlush | firmware/spade/src/rpi/upload.h:255-263 | A byte that completes a page adds that page at the slot's next page. |
| Upload.StreamStart | firmware/spade/src/rpi/upload.h:290-291 | The stream begins empty, at page 1, with a zero buffer, over the erased slot. |
| Upload.StreamStepKeep | firmware/spade/src/rpi/upload.h:355 | A byte that does not fill the buffer keeps the stream state with the byte appended. |
| Upload.StreamStepFlush | firmware/spade/src/rpi/upload.h:355-360 | A byte that fills the buffer keeps the stream state: the page is programmed, `page` advances and the buffer is cleared. |
| Upload.InstalledReadBack | firmware/spade/src/rpi/upload.h:362-367 | After a completed upload the slot carries the magic. From the slot's second page on it holds the stream byte for byte: stream byte `k` at page `1 + k/256`, offset `k % 256`. |
| Upload.InstallStep | firmware/spade/src/rpi/upload.h:362-367 | The final flush, then the magic at the slot's first page, turn the streaming layout into the installed layout. |
| Upload.NoMagicWhileStreaming | firmware/spade/src/rpi/upload.h:337 | While an upload streams, the slot's first page stays erased, so the slot shows no magic. |
| Upload.NoMagicWhileStreamingIf | firmware/spade/src/rpi/upload.h:337 | The same, whenever the erase covered at least one page. |
| Upload.UploadRecord | firmware/spade/src/rpi/upload.h:293-297 | The new record carries the copied name, `Location_FLASH`, the chosen slot and the declared size. |
| Upload.PlacedRecord | firmware/spade/src/rpi/upload.h:293-324 | A placed upload kept the region and directory when the tail had room, and otherwise left what `FlashConsolidation` guarantees. Its record was entered into the directory the slot choice left, and sits in an entry whenever the past-the-end cell was empty. |
| Upload.UplState.constructor | firmware/spade/src/rpi/upload.h:246-253 | `upl_state = {0}`: every field zero, in the header phase. |
| Upload.UplState.Reset | firmware/spade/src/rpi/upload.h:270 | `memset(&upl_state, 0, ...)` zeroes every field. |
| Upload.UplState.FlushBuf | firmware/spade/src/rpi/upload.h:255-267 | Programs the buffer at page `page` of the active slot, advances `page` and clears the buffer. |
| Upload.UplState.PutByte | firmware/spade/src/rpi/upload.h:355-360 | One stream byte keeps the stream state with that byte appended. |
| Upload.UplState.StreamScript | firmware/spade/src/rpi/upload.h:340-346 | The script without its NUL is in flight after the loop. |
| Upload.UplState.BeginBody | firmware/spade/src/rpi/upload.h:289-348 | Switches to the body and fails exactly when there is no room, changing no flash. Otherwise the region and directory are `SlotChoice` of the old ones, the record goes in as `EnterDir` says, `len` becomes `char_len`, the slot is erased for `sector_len` bytes, and the script is streamed. |
| Upload.UplState.HeaderByte | firmware/spade/src/rpi/upload.h:278-350 | A name byte, then a length byte. Before the header is complete the store is untouched. At its last byte the upload stops exactly when there is no room, and otherwise enters the body with the record placed (`Placed`: the slot choice and the directory write as the code does them, nothing else changed). |
| Upload.UplState.BodyByte | firmware/spade/src/rpi/upload.h:352-377 | Completes exactly on the body byte that brings the stream to `len - 1`. The slot is then installed, `save_read` finds it, and the state is zeroed. |
| Upload.UplState.Install | firmware/spade/src/rpi/upload.h:363-371 | Programs the last partial page and then the magic. The slot then holds the whole stream behind the magic, `save_read` finds it, and the state is zeroed. |
| Upload.UplState.StartReading | firmware/spade/src/rpi/upload.h:270-273 | A zeroed state has read nothing of the header and touched nothing. |
| Upload.UplState.TimedOut | firmware/spade/src/rpi/upload.h:274-275 | A timeout returns 0. In the header it leaves the store untouched. In the body it leaves the slot without the magic whenever the erase covered at least one page. |
| Upload.UplState.Step | firmware/spade/src/rpi/upload.h:273-379 | One pass of the loop either finishes with the outcome `Finished` describes, or keeps reading one byte further with the record placed as `Placed` says. |
| Upload.UplState.StdinRead | firmware/spade/src/rpi/upload.h:269-381 | Returns 0 and touches nothing when the header times out or there is no room. Otherwise it places the record (`Placed`: the slot choice, then the record written at the offered entry and no other entry changed), and returns 1 exactly when the body arrives in full: the stream is then installed behind the magic and the state is zeroed. A body cut short leaves the slot without the magic whenever the erase covered at least one page. |

## Left out

- Serial and console I/O (`getchar_timeout_us`, `puts`, `printf`, including the page-progress arithmetic of lines 264-266): input is a parameter and logging is dropped.
- Second-core control (`multicore_reset_core1`, `multicore_launch_core1`, `core1_entry`) and interrupt masking: they are foreign calls with no effect on the modelled state.
- Raw XIP address arithmetic. `METADATA_CONTENTS` and `METADATA_OFFSET` scale indices by `sizeof(Game)`, not by 256 bytes. `FLASH_TARGET_OFFSET(i+1)` expands without parentheses to `FLASH_TARGET_START + i + SLOT_SIZE`. The model uses the intended index-level tables; `Geometry.FlashTargetOffset` is the parenthesised form.
- NOR flash physics. A real erase reads as 0xFF, programming only clears bits, and erases are sector granular. Erase is modelled as "reads as zero", the value the code tests for, and program as overwrite.
- The 256-byte program of `SPRIG_MAGIC` at line 366 reads past the 12-byte array. The bytes after the magic are modelled as zeros.
- The `memcpy` into memory-mapped flash at line 319 is modelled as a plain directory write. With `metadata_i == -1` it writes over the version page, modelled as the cell `versionCell`.
- `realloc` failure in `get_games` is not modelled. The buffer is a sequence that always grows.
- Scans.GetGames: requires a buffer of at least one record. With `games_len` 0 the doubling keeps the buffer empty and the first write lands past its end.
- The contents of `engine_script` and the version strings (`FLASH_VERSION`, `SPADE_VERSION`) are parameters.
- `strcpy` into `game.name` is modelled as copying up to the first NUL and zero-filling the rest. The uninitialised tail of the C struct and a read past an unterminated 128-byte name are not modelled.
- Upload.UplState.StdinRead: `len_i` is not wrapped at 2^32, because a stream of 2^32 bytes cannot fit the flash. The wrap-around of `char_len`, `page_len` and `sector_len` is modelled.
- `upl_state.name_i` is a `uint8_t`; it never exceeds 128, so it is a `nat` here.
- `new_game` (lines 235-240) is a stub that returns 0 whatever the state. It has nothing to model beyond that constant.
- Store.FlashStore.ConsolidateFlashGames: the magic count over slots 0..6 is kept only when the past-the-end slot 7 had no magic. When it had, the code pulls slot 7 into slot 6.
- The past-the-end directory cell (index 16) and slot 7 are independent cells of the model. In flash, cell 16 overlaps the first page of slot 0; the model does not tie the two together.
- Store.FlashStore.ConsolidateFlashGames: a game of two or more slots loses its later slots. Only a game's first slot carries the magic and one shift (line 212) copies one slot, so a later slot is never moved and the next shift writes over it (`Consolidation.MultiSlotLost`). The model follows the code; its relocation guarantee is about first slots only.
- Store.FlashStore.Reserve: the slot taken is one past the highest slot a record names (lines 139-149), regardless of that game's size, so a new game can be placed over a continuation slot (`Scans.NextSlotIgnoresSize`). With the loss above, a record's slots do not always form a run of slots that belong to it; the model proves no such invariant.
