/**
 * Flash geometry of the game store: the constants of upload.h and the
 * arithmetic built on them (slot offsets, slots needed per game, the erase
 * lengths of an upload, the "erase user portion" range).
 *
 * Offsets are byte offsets from the start of flash (not XIP addresses).
 * Directory entries and slots are addressed by index, the way the code
 * intends them; see README for the two macro defects this sets aside.
 */
module Geometry {

  const FLASH_PAGE_SIZE: nat := 256
  const FLASH_SECTOR_SIZE: nat := 4096

  const SLOT_SIZE: nat := 100 * 1024
  const MAX_SLOTS: nat := 7
  const FLASH_TARGET_START: nat := 800 * 1024

  /** Pages in one slot: SLOT_SIZE / FLASH_PAGE_SIZE. */
  const PAGES_PER_SLOT: nat := 400

  const METADATA_ENTRY_SIZE: nat := 256
  /** One page for the version marker, then sixteen directory entries. */
  const METADATA_SIZE: nat := 17 * METADATA_ENTRY_SIZE
  const METADATA_MAX_ENTRIES: nat := METADATA_SIZE / METADATA_ENTRY_SIZE - 1

  /** Byte offset of slot `s` (the intended, parenthesised FLASH_TARGET_OFFSET). */
  function FlashTargetOffset(s: int): int {
    FLASH_TARGET_START + s * SLOT_SIZE
  }

  /** Byte offset of directory entry `j`; entry -1 is the version page. */
  function MetadataEntryOffset(j: int): int {
    FLASH_TARGET_START - METADATA_SIZE + METADATA_ENTRY_SIZE + j * METADATA_ENTRY_SIZE
  }

  /** Byte offset of the version marker (FLASH_VERSION). */
  const FLASH_VERSION_OFFSET: int := FLASH_TARGET_START - METADATA_SIZE

  /** Usable payload bytes of one slot: a slot gives up one page to the magic. */
  const SLOT_PAYLOAD: nat := SLOT_SIZE - FLASH_PAGE_SIZE

  /**
   * GAME_SLOTS: slots reserved for a game of `bytes` payload bytes (floor + 1):
   * the fewest slots whose payload room exceeds `bytes`.
   */
  function GameSlots(bytes: nat): (n: nat)
    ensures n >= 1
    ensures n * SLOT_PAYLOAD > bytes
    ensures (n - 1) * SLOT_PAYLOAD <= bytes
  {
    bytes / SLOT_PAYLOAD + 1
  }

  /** The slot count the design asks for: the ceiling of bytes / SLOT_PAYLOAD. */
  function CeilSlots(bytes: nat): nat {
    (bytes + SLOT_PAYLOAD - 1) / SLOT_PAYLOAD
  }

  /**
   * GAME_SLOTS agrees with the ceiling except on positive exact multiples of
   * the slot payload, where it reserves one slot more, and on 0, where it
   * reserves one slot instead of none.
   */
  lemma GameSlotsBounds(bytes: nat)
    ensures bytes % SLOT_PAYLOAD != 0 ==> GameSlots(bytes) == CeilSlots(bytes)
    ensures bytes % SLOT_PAYLOAD == 0 ==> GameSlots(bytes) == CeilSlots(bytes) + 1
  {
    var q := bytes / SLOT_PAYLOAD;
    var r := bytes % SLOT_PAYLOAD;
    assert bytes == q * SLOT_PAYLOAD + r;
    if r == 0 {
      assert bytes + SLOT_PAYLOAD - 1 == q * SLOT_PAYLOAD + (SLOT_PAYLOAD - 1);
    } else {
      assert bytes + SLOT_PAYLOAD - 1 == (q + 1) * SLOT_PAYLOAD + (r - 1);
    }
  }

  /**
   * page_len of an upload of `charLen` bytes: one page to round up, one for
   * the magic; a whole number of pages, more than one page past `charLen`
   * and at most two.
   */
  function PageLen(charLen: nat): (p: nat)
    ensures p % FLASH_PAGE_SIZE == 0
    ensures charLen + FLASH_PAGE_SIZE < p <= charLen + 2 * FLASH_PAGE_SIZE
  {
    (charLen / FLASH_PAGE_SIZE + 2) * FLASH_PAGE_SIZE
  }

  /**
   * sector_len of an upload: the erase length derived from page_len, a whole
   * number of sectors past page_len and at most one sector past it.
   */
  function SectorLen(charLen: nat): (e: nat)
    ensures e % FLASH_SECTOR_SIZE == 0
    ensures PageLen(charLen) < e <= PageLen(charLen) + FLASH_SECTOR_SIZE
  {
    (PageLen(charLen) / FLASH_SECTOR_SIZE + 1) * FLASH_SECTOR_SIZE
  }

  /**
   * The erase of an upload is sector aligned, covers every page the upload
   * programs (page_len covers the magic page, the stream and a spare page),
   * and is a whole number of pages.
   */
  lemma UploadEraseLengths(charLen: nat)
    ensures PageLen(charLen) % FLASH_PAGE_SIZE == 0
    ensures PageLen(charLen) > charLen + FLASH_PAGE_SIZE
    ensures SectorLen(charLen) % FLASH_SECTOR_SIZE == 0
    ensures SectorLen(charLen) % FLASH_PAGE_SIZE == 0
    ensures SectorLen(charLen) > PageLen(charLen)
    ensures SectorLen(charLen) / FLASH_PAGE_SIZE > charLen / FLASH_PAGE_SIZE + 1
  {
    var p := charLen / FLASH_PAGE_SIZE;
    assert charLen < (p + 1) * FLASH_PAGE_SIZE;
    var s := PageLen(charLen) / FLASH_SECTOR_SIZE;
    assert PageLen(charLen) < (s + 1) * FLASH_SECTOR_SIZE;
    assert SectorLen(charLen) == (s + 1) * 16 * FLASH_PAGE_SIZE;
    assert SectorLen(charLen) / FLASH_PAGE_SIZE == (s + 1) * 16;
  }

  /** First byte erased by erase_user_portion_of_flash_this_is_dangerous. */
  const USER_ERASE_START: int := FlashTargetOffset(0) - METADATA_SIZE + METADATA_ENTRY_SIZE
  /** Number of bytes it erases. */
  const USER_ERASE_LEN: int := SLOT_SIZE * MAX_SLOTS + METADATA_SIZE - METADATA_ENTRY_SIZE

  predicate InUserErase(offset: int) {
    USER_ERASE_START <= offset < USER_ERASE_START + USER_ERASE_LEN
  }

  /**
   * The dangerous erase is sector aligned; a directory page lies inside it
   * exactly when it is one of the entries 0..15 (or the past-the-end cell 16,
   * which is the first page of slot 0), a slot lies inside it exactly when it
   * is one of the slots 0..6, and the version page stays outside.
   */
  lemma UserEraseCoverage()
    ensures USER_ERASE_START % FLASH_SECTOR_SIZE == 0
    ensures USER_ERASE_LEN % FLASH_SECTOR_SIZE == 0
    ensures !InUserErase(FLASH_VERSION_OFFSET)
    ensures !InUserErase(FLASH_VERSION_OFFSET + FLASH_PAGE_SIZE - 1)
    ensures forall j: int {:trigger MetadataEntryOffset(j)} :: -1 <= j <= 16 ==>
      ((InUserErase(MetadataEntryOffset(j)) && InUserErase(MetadataEntryOffset(j) + METADATA_ENTRY_SIZE - 1))
       <==> 0 <= j)
    ensures forall s: int {:trigger FlashTargetOffset(s)} ::
      ((InUserErase(FlashTargetOffset(s)) && InUserErase(FlashTargetOffset(s) + SLOT_SIZE - 1))
       <==> 0 <= s < MAX_SLOTS)
  {
    assert MetadataEntryOffset(-1) == FLASH_VERSION_OFFSET;
  }
}
