/**
 * The flash game store: the directory table, the slot region, the version
 * page and the globals `slot` / `current_game`, with the operations of
 * upload.h that change them in place: set_game, delete_game,
 * consolidate_metadata, consolidate_flash_games, the dangerous user erase,
 * and the space reservation step of an upload.
 */
module Store {
  import opened Geometry
  import opened Records
  import opened Scans
  import opened Occupancy
  import opened Consolidation

  /** A directory record matching delete_game's key (slot and location). */
  predicate Matches(e: Game, key: Game) {
    !IsEmpty(e) && e.slot == key.slot && e.location == key.location
  }

  /**
   * The directory `after`, with version cell `version`, is `before` with the
   * record `g` entered the way an upload enters it (upload.h:314-324): taking
   * the record out again gives back the listing of `before`, or, when no
   * entry was offered, the directory keeps its listing and `g` went over the
   * version page. Without a consolidation `g` lands exactly at the entry
   * after the last used one and nothing else changes; with some entry free
   * and the past-the-end cell empty, `g` is appended to the listing.
   */
  ghost predicate Entered(after: seq<Game>, version: Game, before: seq<Game>, g: Game)
    requires |after| == DIR_CELLS && |before| == DIR_CELLS
  {
    && ((exists mi :: 0 <= mi < METADATA_MAX_ENTRIES && after[mi] == g && Listing(after[mi := EmptyRecord]) == Listing(before))
        || (Listing(after) == Listing(before) && version == g))
    && (LastOpenMetadataSlot(before[..METADATA_MAX_ENTRIES]) != -1 ==>
          after == before[LastOpenMetadataSlot(before[..METADATA_MAX_ENTRIES]) := g])
    && (IsEmpty(before[PAST_END]) && CountEmpty(before[..METADATA_MAX_ENTRIES]) >= 1 ==>
          Listing(after[..PAST_END]) == Listing(before[..PAST_END]) + (if IsEmpty(g) then [] else [g]))
  }

  /**
   * The record `g` written at the entry a directory `written` offers, where
   * `written` keeps the listing of `before` and is `before` itself unless its
   * last entry was in use: the result is `before` with `g` entered.
   */
  lemma EnterRecord(before: seq<Game>, written: seq<Game>, mi: int, g: Game, version: Game)
    requires |before| == DIR_CELLS && |written| == DIR_CELLS
    requires Listing(written) == Listing(before)
    requires LastOpenMetadataSlot(before[..METADATA_MAX_ENTRIES]) != -1 ==> written == before
    requires IsEmpty(before[PAST_END]) ==> IsEmpty(written[PAST_END])
    requires mi == LastOpenMetadataSlot(written[..METADATA_MAX_ENTRIES])
    requires IsEmpty(before[PAST_END]) && CountEmpty(before[..METADATA_MAX_ENTRIES]) >= 1 ==> mi != -1
    requires mi == -1 ==> version == g
    ensures mi != -1 ==> Entered(written[mi := g], version, before, g)
    ensures mi == -1 ==> Entered(written, version, before, g)
  {
    if mi != -1 {
      var after := written[mi := g];
      assert after[mi] == g && after[mi := EmptyRecord] == written;
      if IsEmpty(before[PAST_END]) {
        AppendAtOffered(before, written, mi, g);
      }
    }
  }

  /** With the past-the-end cell empty, the record at the offered entry extends the listing. */
  lemma AppendAtOffered(before: seq<Game>, written: seq<Game>, mi: int, g: Game)
    requires |before| == DIR_CELLS && |written| == DIR_CELLS
    requires Listing(written) == Listing(before)
    requires IsEmpty(before[PAST_END]) && IsEmpty(written[PAST_END])
    requires mi == LastOpenMetadataSlot(written[..METADATA_MAX_ENTRIES]) && mi != -1
    ensures Listing(written[mi := g][..PAST_END]) == Listing(before[..PAST_END]) + (if IsEmpty(g) then [] else [g])
  {
    EmptyFromOffered(written);
    ListingAppend(written, mi, g);
    ListingDropsPastEnd(before);
  }

  /** Every cell from the offered entry on is empty when the past-the-end cell is. */
  lemma EmptyFromOffered(w: seq<Game>)
    requires |w| == DIR_CELLS && IsEmpty(w[PAST_END])
    requires LastOpenMetadataSlot(w[..METADATA_MAX_ENTRIES]) != -1
    ensures forall j :: LastOpenMetadataSlot(w[..METADATA_MAX_ENTRIES]) <= j < DIR_CELLS ==> IsEmpty(w[j])
  {
    var mi := LastOpenMetadataSlot(w[..METADATA_MAX_ENTRIES]);
    forall j | mi <= j < DIR_CELLS
      ensures IsEmpty(w[j])
    {
      if j < PAST_END {
        assert w[j] == w[..METADATA_MAX_ENTRIES][j];
      }
    }
  }

  /** An empty past-the-end cell adds nothing to the listing. */
  lemma ListingDropsPastEnd(b: seq<Game>)
    requires |b| == DIR_CELLS && IsEmpty(b[PAST_END])
    ensures Listing(b[..PAST_END]) == Listing(b)
  {
    assert b == b[..PAST_END] + [b[PAST_END]];
    ListingConcat(b[..PAST_END], [b[PAST_END]]);
    assert [b[PAST_END]][1..] == [];
  }

  /**
   * The directory an upload writes its record into (upload.h:314-316):
   * consolidated first when its last entry is in use.
   */
  function EntryTable(d: seq<Game>): (r: seq<Game>)
    requires |d| == DIR_CELLS
    ensures |r| == DIR_CELLS
    ensures LastOpenMetadataSlot(d[..METADATA_MAX_ENTRIES]) != -1 ==> r == d
  {
    if LastOpenMetadataSlot(d[..METADATA_MAX_ENTRIES]) == -1 then MetaScanResult(d, 0, 0) else d
  }

  /** The entry an upload's record goes to (upload.h:318); -1 sends it over the version page. */
  function OfferedEntry(d: seq<Game>): (mi: int)
    requires |d| == DIR_CELLS
    ensures -1 <= mi < METADATA_MAX_ENTRIES
    ensures mi != -1 ==> forall j :: mi <= j < METADATA_MAX_ENTRIES ==> IsEmpty(EntryTable(d)[j])
  {
    var t := EntryTable(d);
    assert forall j :: 0 <= j < METADATA_MAX_ENTRIES ==> t[..METADATA_MAX_ENTRIES][j] == t[j];
    LastOpenMetadataSlot(t[..METADATA_MAX_ENTRIES])
  }

  /** The directory once an upload has written its record `g` (upload.h:314-324). */
  function EnterDir(d: seq<Game>, g: Game): (r: seq<Game>)
    requires |d| == DIR_CELLS
    ensures |r| == DIR_CELLS
  {
    var mi := OfferedEntry(d);
    if mi == -1 then EntryTable(d) else EntryTable(d)[mi := g]
  }

  /**
   * What entering a record does: see Entered. Besides, the offered entry is
   * the last one in use afterwards, and one is always offered when some
   * entry was free and the past-the-end cell is empty.
   */
  lemma EnteredDirectory(d: seq<Game>, g: Game, version: Game)
    requires |d| == DIR_CELLS
    requires OfferedEntry(d) == -1 ==> version == g
    ensures Entered(EnterDir(d, g), version, d, g)
    ensures OfferedEntry(d) != -1 ==> EnterDir(d, g)[OfferedEntry(d)] == g
    ensures OfferedEntry(d) != -1 ==> forall j :: OfferedEntry(d) < j < METADATA_MAX_ENTRIES ==> IsEmpty(EnterDir(d, g)[j])
    ensures IsEmpty(d[PAST_END]) && CountEmpty(d[..METADATA_MAX_ENTRIES]) >= 1 ==> OfferedEntry(d) != -1
  {
    var w := EntryTable(d);
    if LastOpenMetadataSlot(d[..METADATA_MAX_ENTRIES]) == -1 {
      MetadataConsolidation(d);
      if IsEmpty(d[PAST_END]) && CountEmpty(d[..METADATA_MAX_ENTRIES]) >= 1 {
        RoomAfterConsolidation(d, w);
        assert w[..METADATA_MAX_ENTRIES][METADATA_MAX_ENTRIES - 1] == w[METADATA_MAX_ENTRIES - 1];
      }
    }
    EnterRecord(d, w, OfferedEntry(d), g, version);
  }

  /**
   * The slot region and directory an upload takes its slot from
   * (upload.h:305-311): as they are when enough slots lie past the highest
   * recorded one, as consolidate_flash_games leaves them otherwise.
   */
  function SlotChoice(m: Pages, d: seq<Game>, need: nat): (r: (Pages, seq<Game>))
    requires |d| == DIR_CELLS
    ensures |r.1| == DIR_CELLS
    ensures AvailableFlashSlotsAtEnd(d[..METADATA_MAX_ENTRIES]) >= need ==> r == (m, d)
  {
    if AvailableFlashSlotsAtEnd(d[..METADATA_MAX_ENTRIES]) >= need then (m, d) else FlashScanResult(m, d, 0, 0)
  }

  /** The slot choice frees no entry and keeps the past-the-end cell. */
  lemma SlotChoiceKeepsEmpties(m: Pages, d: seq<Game>, need: nat)
    requires |d| == DIR_CELLS
    ensures forall j :: 0 <= j < DIR_CELLS && IsEmpty(d[j]) ==> IsEmpty(SlotChoice(m, d, need).1[j])
    ensures SlotChoice(m, d, need).1[PAST_END] == d[PAST_END]
  {
    if AvailableFlashSlotsAtEnd(d[..METADATA_MAX_ENTRIES]) < need {
      FlashConsolidation(m, d);
    }
  }

  /** With room for `need >= 1` games, the directory the slot choice leaves still has a free entry. */
  lemma ChoiceLeavesRoom(m: Pages, d: seq<Game>, need: nat)
    requires |d| == DIR_CELLS && need >= 1 && CountEmpty(d[..METADATA_MAX_ENTRIES]) >= need
    ensures CountEmpty(SlotChoice(m, d, need).1[..METADATA_MAX_ENTRIES]) >= 1
    ensures SlotChoice(m, d, need).1[PAST_END] == d[PAST_END]
  {
    var r := SlotChoice(m, d, need).1;
    SlotChoiceKeepsEmpties(m, d, need);
    assert forall j :: 0 <= j < METADATA_MAX_ENTRIES ==>
      d[..METADATA_MAX_ENTRIES][j] == d[j] && r[..METADATA_MAX_ENTRIES][j] == r[j];
    CountEmptyMonotone(d[..METADATA_MAX_ENTRIES], r[..METADATA_MAX_ENTRIES]);
  }

  class FlashStore {
    /** Directory cells 0..15 and the past-the-end cell 16. */
    const dir: array<Game>
    /** The slot region, by page index from FLASH_TARGET_START. */
    var pages: Pages
    /** The version page, read as a record (METADATA_CONTENTS[-1]). */
    var versionCell: Game
    /** The global `slot`: the active game's first slot. */
    var slot: nat
    /** The global `current_game`. */
    var currentGame: Game

    ghost predicate Valid()
      reads this
    {
      dir.Length == DIR_CELLS && slot < 256
    }

    constructor ()
      ensures Valid() && fresh(dir)
      ensures forall j :: 0 <= j < DIR_CELLS ==> IsEmpty(dir[j])
      ensures pages == map[] && slot == 0 && IsEmpty(currentGame) && IsEmpty(versionCell)
    {
      dir := new Game[DIR_CELLS](_ => EmptyRecord);
      pages := map[];
      versionCell := EmptyRecord;
      slot := 0;
      currentGame := EmptyRecord;
    }

    /**
     * save_read: no save unless the active slot carries the magic; the save
     * data starts one page past the slot's base.
     */
    function SaveRead(): (r: Option<nat>)
      reads this
      ensures r.Some? <==> HasMagic(pages, slot)
      ensures r.Some? ==> r.value == SlotBase(slot) + 1
    {
      if !HasMagic(pages, slot) then None else Some(SlotBase(slot) + 1)
    }

    /** set_game: makes `g` the current game and its slot the active slot. */
    method SetGame(g: Game)
      requires Valid()
      modifies this`currentGame, this`slot
      ensures Valid() && currentGame == g && slot == g.slot
    {
      currentGame := g;
      slot := g.slot;
    }

    /** flash_range_program of one page. */
    method Program(k: nat, data: Page)
      modifies this`pages
      ensures pages == old(pages)[k := data]
    {
      pages := pages[k := data];
    }

    /** flash_range_erase of `count` pages from page `from`. */
    method Erase(from: nat, count: nat)
      modifies this`pages
      ensures pages == EraseRange(old(pages), from, count)
    {
      pages := EraseRange(pages, from, count);
    }

    /**
     * delete_game: erases the first record matching `key`'s slot and
     * location, then erases the magic of slots 0..key.sizeB / SLOT_SIZE
     * (counted from slot 0, not from the record's slot) and returns 1;
     * returns 0 and changes nothing when no record matches.
     */
    method DeleteGame(key: Game) returns (r: int)
      requires Valid()
      modifies this`pages, dir
      ensures r == 1 <==> exists j :: 0 <= j < METADATA_MAX_ENTRIES && Matches(old(dir[j]), key)
      ensures r == 0 ==> dir[..] == old(dir[..]) && pages == old(pages)
      ensures r == 1 ==> exists j :: (0 <= j < METADATA_MAX_ENTRIES && Matches(old(dir[j]), key) &&
                                      (forall k :: 0 <= k < j ==> !Matches(old(dir[k]), key)) &&
                                      dir[..] == old(dir[..])[j := EmptyRecord])
      ensures r == 1 ==> forall k: nat ::
                PageAt(pages, k) == (if k % PAGES_PER_SLOT == 0 && k / PAGES_PER_SLOT <= key.sizeB / SLOT_SIZE
                                     then ClearMagic(PageAt(old(pages), k)) else PageAt(old(pages), k))
      ensures r == 1 ==> forall s :: 0 <= s <= key.sizeB / SLOT_SIZE ==> !HasMagic(pages, s)
    {
      for i := 0 to METADATA_MAX_ENTRIES
        invariant forall k :: 0 <= k < i ==> !Matches(dir[k], key)
        invariant dir[..] == old(dir[..]) && pages == old(pages)
      {
        if !IsEmpty(dir[i]) && dir[i].slot == key.slot && dir[i].location == key.location {
          dir[i] := EmptyRecord;
          assert dir[..] == old(dir[..])[i := EmptyRecord];
          var sl := 0;
          while sl < key.sizeB / SLOT_SIZE + 1
            invariant sl <= key.sizeB / SLOT_SIZE + 1
            invariant dir[..] == old(dir[..])[i := EmptyRecord]
            invariant forall k: nat :: PageAt(pages, k) ==
                        (if k % PAGES_PER_SLOT == 0 && k / PAGES_PER_SLOT < sl
                         then ClearMagic(PageAt(old(pages), k)) else PageAt(old(pages), k))
          {
            pages := ClearMagicAt(pages, sl);
            sl := sl + 1;
          }
          forall s | 0 <= s <= key.sizeB / SLOT_SIZE
            ensures !HasMagic(pages, s)
          {
            assert SlotBase(s) % PAGES_PER_SLOT == 0 && SlotBase(s) / PAGES_PER_SLOT == s;
          }
          assert Matches(old(dir[i]), key);
          return 1;
        }
      }
      return 0;
    }

    /**
     * consolidate_metadata (lines 189-203): moves records down into empty
     * entries, restarting after each move from the last entry seen in use.
     * The directory it leaves is MetaScanResult's; MetaConsolidated says
     * what that guarantees: the records keep their order, no empty entry
     * from index 1 on is followed by a used one, entry 0 is only ever filled
     * from entry 1, and a dense directory is left untouched.
     */
    method ConsolidateMetadata()
      requires Valid()
      modifies dir
      ensures dir[..] == MetaScanResult(old(dir[..]), 0, 0)
      ensures MetaConsolidated(dir[..], old(dir[..]))
    {
      ghost var o := dir[..];
      var last := 0;
      var i := 0;
      while i < METADATA_MAX_ENTRIES
        invariant last <= i <= METADATA_MAX_ENTRIES
        invariant MetaScanResult(dir[..], i, last) == MetaScanResult(o, 0, 0)
        decreases Weight(Flags(dir[..])), METADATA_MAX_ENTRIES - i
      {
        if IsEmpty(dir[i]) {
          if !IsEmpty(dir[i + 1]) {
            ghost var d := dir[..];
            MoveRecord(d, i);
            dir[i] := dir[i + 1];
            dir[i + 1] := EmptyRecord;
            assert dir[..] == d[i := d[i + 1]][i + 1 := EmptyRecord];
            i := last;
          }
        } else {
          last := i;
        }
        i := i + 1;
      }
      MetadataConsolidation(o);
    }

    /**
     * One shift of consolidate_flash_games (lines 212-223): slot i+1 is
     * copied over slot i, the magic of slot i+1 is erased, and every used
     * record of entries 0..15 that names slot i+1 is rewritten to name slot i;
     * nothing else changes.
     */
    method ShiftSlot(i: nat)
      requires Valid() && i < MAX_SLOTS
      modifies this`pages, dir
      ensures pages == ShiftedPages(old(pages), i)
      ensures dir[..] == Relabelled(old(dir[..]), i)
    {
      pages := CopySlotDown(pages, i);
      pages := ClearMagicAt(pages, i + 1);
      for k := 0 to METADATA_MAX_ENTRIES
        invariant pages == ShiftedPages(old(pages), i)
        invariant forall j :: 0 <= j < k && !IsEmpty(old(dir[j])) && old(dir[j]).slot == i + 1 ==>
                    dir[j] == old(dir[j]).(slot := i)
        invariant forall j :: 0 <= j < DIR_CELLS && (k <= j || IsEmpty(old(dir[j])) || old(dir[j]).slot != i + 1) ==>
                    dir[j] == old(dir[j])
      {
        if !IsEmpty(dir[k]) && dir[k].slot == i + 1 {
          dir[k] := dir[k].(slot := i);
        }
      }
      assert dir[..] == Relabelled(old(dir[..]), i);
    }

    /**
     * One pass of consolidate_flash_games' loop body (lines 209-229) at slot
     * `i`: a slot without the magic followed by one with it is one ShiftSlot
     * and restarts the scan after `last`; otherwise nothing changes and a
     * slot with the magic becomes the restart point. Either way the scan
     * goes on to the same final state.
     */
    method FlashPass(i: nat, last: nat) returns (i': nat, last': nat)
      requires Valid() && last <= i < MAX_SLOTS
      modifies this`pages, dir
      ensures last' <= i' <= MAX_SLOTS
      ensures FlashScanResult(pages, dir[..], i', last') == FlashScanResult(old(pages), old(dir[..]), i, last)
      ensures !HasMagic(old(pages), i) && HasMagic(old(pages), i + 1) ==>
                pages == ShiftedPages(old(pages), i) && dir[..] == Relabelled(old(dir[..]), i) &&
                i' == last + 1 && last' == last &&
                Weight(MagicFlags(pages)) < Weight(MagicFlags(old(pages)))
      ensures HasMagic(old(pages), i) || !HasMagic(old(pages), i + 1) ==>
                pages == old(pages) && dir[..] == old(dir[..]) &&
                i' == i + 1 && last' == (if HasMagic(old(pages), i) then i else last)
    {
      ghost var m, d := pages, dir[..];
      i', last' := i, last;
      if !HasMagic(pages, i) {
        if HasMagic(pages, i + 1) {
          ShiftMovesMagic(pages, i);
          ShiftSlot(i);
          i' := last;
        }
      } else {
        last' := i;
      }
      i' := i' + 1;
      PassKeepsResult(m, d, i, last, pages, dir[..], i', last');
    }

    /**
     * consolidate_flash_games (lines 205-231): shifts games down into slots
     * without the magic, restarting after each shift from the last slot seen
     * in use, and relabels the records of each game it moves. The state it
     * leaves is FlashScanResult's; FlashConsolidated says what that
     * guarantees: the magic count is kept, the used slots end up dense from
     * slot 1, every magic-bearing slot (a game's first slot) moves down with
     * its 400 pages and in order, its records follow it, and empty entries,
     * the past-the-end cell and flash past slot 7 are kept. A game's later
     * slots carry no magic and are not moved: MultiSlotLost.
     */
    method ConsolidateFlashGames()
      requires Valid()
      modifies this`pages, dir
      ensures (pages, dir[..]) == FlashScanResult(old(pages), old(dir[..]), 0, 0)
    {
      ghost var om, od := pages, dir[..];
      var last: nat := 0;
      var i: nat := 0;
      while i < MAX_SLOTS
        invariant last <= i <= MAX_SLOTS
        invariant FlashScanResult(pages, dir[..], i, last) == FlashScanResult(om, od, 0, 0)
        decreases Weight(MagicFlags(pages)), MAX_SLOTS - i
      {
        i, last := FlashPass(i, last);
      }
    }

    /**
     * erase_user_portion_of_flash_this_is_dangerous: every directory entry
     * (and the past-the-end cell, which is slot 0's first page) and every
     * page of slots 0..6 read as erased; the version page and the flash past
     * slot 6 are kept.
     */
    method EraseUserPortion()
      requires Valid()
      modifies this`pages, dir
      ensures forall j :: 0 <= j < DIR_CELLS ==> IsEmpty(dir[j])
      ensures forall k: nat :: PageAt(pages, k) == (if k < SlotBase(MAX_SLOTS) then ErasedPage else PageAt(old(pages), k))
      ensures forall s :: 0 <= s < MAX_SLOTS ==> !HasMagic(pages, s)
    {
      forall j | 0 <= j < DIR_CELLS {
        dir[j] := EmptyRecord;
      }
      pages := EraseRange(pages, 0, SlotBase(MAX_SLOTS));
      MagicPageIsMagic();
    }

    /**
     * The slot choice of an upload (upload.h:305-312): consolidate the slots
     * first when fewer than `need` lie past the highest recorded one, then
     * take the slot after the highest recorded one, truncated to the record's
     * 8-bit field.
     */
    method TakeSlot(need: nat)
      requires Valid()
      modifies this`pages, this`slot, dir
      ensures Valid()
      ensures (pages, dir[..]) == SlotChoice(old(pages), old(dir[..]), need)
      ensures slot == LastOpenFlashSlot(dir[..METADATA_MAX_ENTRIES]) % 256
    {
      if AvailableFlashSlotsAtEnd(dir[..METADATA_MAX_ENTRIES]) < need {
        ConsolidateFlashGames();
      }
      slot := LastOpenFlashSlot(dir[..METADATA_MAX_ENTRIES]) % 256;
    }

    /**
     * The directory write of an upload (upload.h:314-324): consolidate the
     * directory when its last entry is in use, then write `g` at the entry
     * get_last_open_metadata_slot offers -- or, when that is still -1, over
     * the version page. EnteredDirectory says what this does to the listing.
     */
    method TakeEntry(g: Game) returns (mi: int)
      requires Valid()
      modifies this`versionCell, dir
      ensures mi == OfferedEntry(old(dir[..]))
      ensures dir[..] == EnterDir(old(dir[..]), g)
      ensures versionCell == if mi == -1 then g else old(versionCell)
      ensures pages == old(pages) && slot == old(slot)
    {
      ghost var before := dir[..];
      assert before[..METADATA_MAX_ENTRIES] == dir[..METADATA_MAX_ENTRIES];
      if LastOpenMetadataSlot(dir[..METADATA_MAX_ENTRIES]) == -1 {
        ConsolidateMetadata();
      }
      assert dir[..] == EntryTable(before);
      mi := LastOpenMetadataSlot(dir[..METADATA_MAX_ENTRIES]);
      if mi == -1 {
        versionCell := g;
      } else {
        dir[mi] := g;
      }
    }

    /**
     * The reservation step of an upload (upload.h:293-324): refuse when the
     * smaller of free entries and magic slots is below GAME_SLOTS(size) and
     * change nothing; otherwise choose the slot, then the entry, and write
     * the new record there (or over the version page when no entry is
     * offered, which cannot happen while the past-the-end cell is empty).
     * `reserved` and `relocated` are the flash and the directory as the slot
     * choice left them.
     */
    method Reserve(name: seq<byte>, size: uint32)
      returns (ok: bool, mi: int, ghost reserved: Pages, ghost relocated: seq<Game>)
      requires Valid()
      modifies this`pages, this`slot, this`versionCell, dir
      ensures Valid() && |relocated| == DIR_CELLS
      ensures ok <==> AvailableGameSlots(old(dir[..METADATA_MAX_ENTRIES]), old(pages)) >= GameSlots(size)
      ensures !ok ==> dir[..] == old(dir[..]) && pages == old(pages) && slot == old(slot) && versionCell == old(versionCell)
      ensures !ok ==> reserved == old(pages) && relocated == old(dir[..])
      ensures ok ==> (reserved, relocated) == SlotChoice(old(pages), old(dir[..]), GameSlots(size))
      ensures ok ==> pages == reserved && slot == LastOpenFlashSlot(relocated[..METADATA_MAX_ENTRIES]) % 256
      ensures ok ==> mi == OfferedEntry(relocated) && dir[..] == EnterDir(relocated, Game(name, Location_FLASH, slot, size))
      ensures ok ==> versionCell == if mi == -1 then Game(name, Location_FLASH, slot, size) else old(versionCell)
      ensures ok && IsEmpty(old(dir[PAST_END])) ==> mi != -1
    {
      reserved, relocated := pages, dir[..];
      var need := GameSlots(size);
      if AvailableGameSlots(dir[..METADATA_MAX_ENTRIES], pages) < need {
        return false, -1, reserved, relocated;
      }
      ghost var before := dir[..];
      ChoiceLeavesRoom(pages, before, need);
      TakeSlot(need);
      reserved, relocated := pages, dir[..];
      assert relocated == SlotChoice(old(pages), before, need).1;
      var g := Game(name, Location_FLASH, slot, size);
      EnteredDirectory(relocated, g, g);
      ghost var chosen := slot;
      mi := TakeEntry(g);
      assert pages == reserved && slot == chosen;
      ok := true;
    }
  }
}
