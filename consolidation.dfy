/**
 * The theory of the two consolidation scans of upload.h: occupancy flags of
 * the directory and the slot region, what one move (consolidate_metadata)
 * or one shift (consolidate_flash_games) does to them, the state of each
 * scan as a predicate, and one lemma per case of each loop body.
 */
module Consolidation {
  import opened Geometry
  import opened Records
  import opened Scans
  import opened Occupancy

  /** Directory cells: the 16 entries and the past-the-end cell that the consolidation scan reads. */
  const DIR_CELLS: nat := METADATA_MAX_ENTRIES + 1
  /** The index of the past-the-end directory cell. */
  const PAST_END: nat := METADATA_MAX_ENTRIES
  /** Slots the flash consolidation scan reads: the 7 slots and the past-the-end slot. */
  const SCANNED_SLOTS: nat := MAX_SLOTS + 1

  /** Which directory cells hold a record. */
  function Flags(d: seq<Game>): (b: seq<bool>)
    ensures |b| == |d|
    ensures forall j :: 0 <= j < |d| ==> b[j] == !IsEmpty(d[j])
  {
    seq(|d|, j requires 0 <= j < |d| => !IsEmpty(d[j]))
  }

  /** Which of the scanned slots carry the magic. */
  function MagicFlags(m: Pages): (b: seq<bool>)
    ensures |b| == SCANNED_SLOTS
    ensures forall s :: 0 <= s < SCANNED_SLOTS ==> b[s] == HasMagic(m, s)
  {
    seq(SCANNED_SLOTS, s requires 0 <= s => HasMagic(m, s))
  }

  lemma {:induction false} CountMagicIsCount(m: Pages, n: nat)
    requires n <= SCANNED_SLOTS
    ensures CountMagic(m, n) == Count(MagicFlags(m)[..n])
  {
    if n > 0 {
      CountMagicIsCount(m, n - 1);
      PrefixCount(MagicFlags(m), n - 1);
    }
  }

  /** No empty directory entry among 0..15 is followed by a used one. */
  predicate DirectoryDense(d: seq<Game>)
    requires |d| == DIR_CELLS
  {
    forall j :: 0 <= j < METADATA_MAX_ENTRIES && IsEmpty(d[j]) ==> IsEmpty(d[j + 1])
  }

  /** No slot among 0..6 without the magic is followed by one with it. */
  predicate SlotsDense(m: Pages) {
    forall s :: 0 <= s < MAX_SLOTS && !HasMagic(m, s) ==> !HasMagic(m, s + 1)
  }

  /** Moving the record of cell i+1 into the empty cell i and erasing cell i+1. */
  lemma MoveRecord(s: seq<Game>, i: nat)
    requires i + 1 < |s| && IsEmpty(s[i]) && !IsEmpty(s[i + 1])
    ensures Listing(s[i := s[i + 1]][i + 1 := EmptyRecord]) == Listing(s)
    ensures Weight(Flags(s[i := s[i + 1]][i + 1 := EmptyRecord])) + 1 == Weight(Flags(s))
  {
    var t := s[i := s[i + 1]][i + 1 := EmptyRecord];
    assert s == s[..i] + [s[i], s[i + 1]] + s[i + 2..];
    assert t == s[..i] + [s[i + 1], EmptyRecord] + s[i + 2..];
    ListingConcat(s[..i] + [s[i], s[i + 1]], s[i + 2..]);
    ListingConcat(s[..i], [s[i], s[i + 1]]);
    ListingConcat(s[..i] + [s[i + 1], EmptyRecord], s[i + 2..]);
    ListingConcat(s[..i], [s[i + 1], EmptyRecord]);
    assert Listing([s[i], s[i + 1]]) == [s[i + 1]] by {
      assert [s[i], s[i + 1]][1..] == [s[i + 1]];
      assert [s[i + 1]][1..] == [];
    }
    assert Listing([s[i + 1], EmptyRecord]) == [s[i + 1]] by {
      assert [s[i + 1], EmptyRecord][1..] == [EmptyRecord];
      assert [EmptyRecord][1..] == [];
    }
    assert Flags(t) == Flags(s)[i := true][i + 1 := false];
    MoveDown(Flags(s), i);
  }

  /** The slot region after one shift of consolidate_flash_games (lines 212-213). */
  function ShiftedPages(m: Pages, i: nat): Pages {
    ClearMagicAt(CopySlotDown(m, i), i + 1)
  }

  /**
   * One shift moves the magic from slot i+1 to slot i and touches no other
   * slot's magic, so the number of magic-bearing slots among 0..7 is kept,
   * and among 0..6 as well unless the magic came from the past-the-end slot.
   */
  lemma ShiftMovesMagic(m: Pages, i: nat)
    requires i < MAX_SLOTS && !HasMagic(m, i) && HasMagic(m, i + 1)
    ensures MagicFlags(ShiftedPages(m, i)) == MagicFlags(m)[i := true][i + 1 := false]
    ensures CountMagic(ShiftedPages(m, i), SCANNED_SLOTS) == CountMagic(m, SCANNED_SLOTS)
    ensures i + 1 < MAX_SLOTS ==> CountMagic(ShiftedPages(m, i), MAX_SLOTS) == CountMagic(m, MAX_SLOTS)
    ensures Weight(MagicFlags(ShiftedPages(m, i))) + 1 == Weight(MagicFlags(m))
  {
    var r := ShiftedPages(m, i);
    var b := MagicFlags(m);
    var c := b[i := true][i + 1 := false];
    ShiftMagicAt(m, i);
    assert MagicFlags(r) == c;
    MoveDown(b, i);
    CountMagicIsCount(m, SCANNED_SLOTS);
    CountMagicIsCount(r, SCANNED_SLOTS);
    assert b[..SCANNED_SLOTS] == b && c[..SCANNED_SLOTS] == c;
    if i + 1 < MAX_SLOTS {
      CountMagicIsCount(m, MAX_SLOTS);
      CountMagicIsCount(r, MAX_SLOTS);
      assert c[..MAX_SLOTS] == b[..MAX_SLOTS][i := true][i + 1 := false];
      MoveDown(b[..MAX_SLOTS], i);
    }
  }

  /** Slot by slot: the magic now in slot i, gone from slot i+1, and no other slot's magic touched. */
  lemma ShiftMagicAt(m: Pages, i: nat)
    requires i < MAX_SLOTS && !HasMagic(m, i) && HasMagic(m, i + 1)
    ensures HasMagic(ShiftedPages(m, i), i) && !HasMagic(ShiftedPages(m, i), i + 1)
    ensures forall s :: 0 <= s < SCANNED_SLOTS && s != i && s != i + 1 ==> HasMagic(ShiftedPages(m, i), s) == HasMagic(m, s)
  {
    var r := ShiftedPages(m, i);
    assert PageAt(r, SlotBase(i)) == PageAt(m, SlotBase(i + 1));
    forall s | 0 <= s < SCANNED_SLOTS && s != i && s != i + 1
      ensures HasMagic(r, s) == HasMagic(m, s)
    {
      assert PageAt(r, SlotBase(s)) == PageAt(m, SlotBase(s));
    }
  }

  lemma {:induction false} UsedDownTo(t: seq<Game>, j: nat)
    requires |t| == DIR_CELLS && 1 <= j < METADATA_MAX_ENTRIES
    requires !IsEmpty(t[METADATA_MAX_ENTRIES - 1])
    requires forall k :: 1 <= k < METADATA_MAX_ENTRIES && IsEmpty(t[k]) ==> IsEmpty(t[k + 1])
    ensures !IsEmpty(t[j])
    decreases METADATA_MAX_ENTRIES - j
  {
    if j < METADATA_MAX_ENTRIES - 1 {
      UsedDownTo(t, j + 1);
    }
  }

  lemma {:induction false} NoneEmpty(x: seq<Game>)
    requires forall k :: 0 <= k < |x| ==> !IsEmpty(x[k])
    ensures CountEmpty(x) == 0
  {
    if x != [] {
      NoneEmpty(x[1..]);
    }
  }

  /** With entries 1..15 in use, only entry 0 can be counted as empty. */
  lemma UsedFromOne(t: seq<Game>)
    requires |t| == DIR_CELLS
    requires !IsEmpty(t[METADATA_MAX_ENTRIES - 1])
    requires forall j :: 1 <= j < METADATA_MAX_ENTRIES && IsEmpty(t[j]) ==> IsEmpty(t[j + 1])
    ensures CountEmpty(t[..PAST_END]) == if IsEmpty(t[0]) then 1 else 0
  {
    forall j | 1 <= j < METADATA_MAX_ENTRIES
      ensures !IsEmpty(t[j])
    {
      UsedDownTo(t, j);
    }
    var x := t[..PAST_END];
    assert x[1..] == t[1..PAST_END];
    NoneEmpty(t[1..PAST_END]);
  }

  /** With the past-the-end cells empty, equal listings mean equal empty counts among 0..15. */
  lemma SameEmptyCount(s: seq<Game>, t: seq<Game>)
    requires |s| == DIR_CELLS && |t| == DIR_CELLS
    requires IsEmpty(s[PAST_END]) && IsEmpty(t[PAST_END])
    requires Listing(t) == Listing(s)
    ensures CountEmpty(t[..PAST_END]) == CountEmpty(s[..PAST_END])
  {
    assert s == s[..PAST_END] + [s[PAST_END]];
    assert t == t[..PAST_END] + [t[PAST_END]];
    ListingConcat(s[..PAST_END], [s[PAST_END]]);
    ListingConcat(t[..PAST_END], [t[PAST_END]]);
    assert Listing([s[PAST_END]]) == [] && Listing([t[PAST_END]]) == [];
    ListingAndEmpties(s[..PAST_END]);
    ListingAndEmpties(t[..PAST_END]);
  }

  lemma TwoEmpties(x: seq<Game>)
    requires |x| >= 2 && IsEmpty(x[0]) && IsEmpty(x[1])
    ensures CountEmpty(x) >= 2
  {
    assert x[1..][0] == x[1];
  }

  /**
   * After consolidate_metadata, the last directory entry is free whenever
   * some entry was free before and the past-the-end cell reads as empty: so
   * the metadata_i of upload.h:318 is never -1 once the space check passed.
   */
  lemma {:induction false} RoomAfterConsolidation(s: seq<Game>, t: seq<Game>)
    requires |s| == DIR_CELLS && |t| == DIR_CELLS
    requires IsEmpty(s[PAST_END]) && IsEmpty(t[PAST_END])
    requires CountEmpty(s[..PAST_END]) >= 1
    requires Listing(t) == Listing(s)
    requires forall j :: 1 <= j < METADATA_MAX_ENTRIES && IsEmpty(t[j]) ==> IsEmpty(t[j + 1])
    requires t[0] == if IsEmpty(s[0]) then s[1] else s[0]
    ensures IsEmpty(t[METADATA_MAX_ENTRIES - 1])
  {
    if !IsEmpty(t[METADATA_MAX_ENTRIES - 1]) {
      UsedFromOne(t);
      SameEmptyCount(s, t);
      TwoEmpties(s[..PAST_END]);
      assert false;
    }
  }

  lemma {:induction false} ListingOfEmpties(x: seq<Game>)
    requires forall k :: 0 <= k < |x| ==> IsEmpty(x[k])
    ensures Listing(x) == []
  {
    if x != [] {
      ListingOfEmpties(x[1..]);
    }
  }

  /**
   * Writing `g` into entry mi, when mi and every cell after it are empty,
   * appends `g` to the listing of entries 0..15 (an all-zero `g` stays
   * unlisted).
   */
  lemma ListingAppend(b: seq<Game>, mi: nat, g: Game)
    requires |b| == DIR_CELLS && mi < METADATA_MAX_ENTRIES
    requires forall j :: mi <= j < DIR_CELLS ==> IsEmpty(b[j])
    ensures Listing(b[mi := g][..PAST_END]) == Listing(b) + (if IsEmpty(g) then [] else [g])
  {
    assert b[mi := g][..PAST_END] == b[..mi] + [g] + b[mi + 1..PAST_END];
    assert b == b[..mi] + b[mi..];
    ListingConcat(b[..mi] + [g], b[mi + 1..PAST_END]);
    ListingConcat(b[..mi], [g]);
    ListingConcat(b[..mi], b[mi..]);
    ListingOfEmpties(b[mi + 1..PAST_END]);
    ListingOfEmpties(b[mi..]);
    assert [g][1..] == [];
  }

  /**
   * The state of consolidate_metadata's scan over a directory `d` that
   * started as `o`: `i` is the next entry to look at, `last` the last entry
   * seen in use (the restart point).
   */
  predicate MetaScan(d: seq<Game>, o: seq<Game>, i: nat, last: nat)
    requires |d| == DIR_CELLS && |o| == DIR_CELLS
  {
    && last <= i <= METADATA_MAX_ENTRIES
    && (0 < i ==> last < i)
    && (0 < last ==> !IsEmpty(d[last]))
    && (forall j :: 1 <= j < i && IsEmpty(d[j]) ==> IsEmpty(d[j + 1]))
    && Listing(d) == Listing(o)
    && (IsEmpty(o[PAST_END]) ==> IsEmpty(d[PAST_END]))
    && (0 < i ==> d[0] == if IsEmpty(o[0]) then o[1] else o[0])
    && (i == 0 ==> d == o)
    && (DirectoryDense(o) ==> d == o)
  }

  lemma MetaScanStart(o: seq<Game>)
    requires |o| == DIR_CELLS
    ensures MetaScan(o, o, 0, 0)
  {
  }

  /** An empty entry followed by a used one: the record moves down and the scan restarts after `last`. */
  lemma MetaScanMove(d: seq<Game>, o: seq<Game>, i: nat, last: nat)
    requires |d| == DIR_CELLS && |o| == DIR_CELLS
    requires MetaScan(d, o, i, last) == true && i < METADATA_MAX_ENTRIES
    requires IsEmpty(d[i]) && !IsEmpty(d[i + 1])
    ensures MetaScan(d[i := d[i + 1]][i + 1 := EmptyRecord], o, last + 1, last) == true
    ensures Weight(Flags(d[i := d[i + 1]][i + 1 := EmptyRecord])) < Weight(Flags(d))
  {
    MoveRecord(d, i);
  }

  /** Two empty entries in a row: the scan moves on. */
  lemma MetaScanSkip(d: seq<Game>, o: seq<Game>, i: nat, last: nat)
    requires |d| == DIR_CELLS && |o| == DIR_CELLS
    requires MetaScan(d, o, i, last) == true && i < METADATA_MAX_ENTRIES
    requires IsEmpty(d[i]) && IsEmpty(d[i + 1])
    ensures MetaScan(d, o, i + 1, last) == true
  {
  }

  /** A used entry: it becomes the restart point. */
  lemma MetaScanUsed(d: seq<Game>, o: seq<Game>, i: nat, last: nat)
    requires |d| == DIR_CELLS && |o| == DIR_CELLS
    requires MetaScan(d, o, i, last) == true && i < METADATA_MAX_ENTRIES
    requires !IsEmpty(d[i])
    ensures MetaScan(d, o, i + 1, i) == true
  {
  }

  /**
   * The directory that consolidate_metadata's scan (lines 189-203) leaves
   * when it resumes at entry `i` with restart point `last`.
   */
  function MetaScanResult(d: seq<Game>, i: nat, last: nat): (r: seq<Game>)
    requires |d| == DIR_CELLS && last <= i <= METADATA_MAX_ENTRIES
    ensures |r| == DIR_CELLS
    decreases Weight(Flags(d)), METADATA_MAX_ENTRIES - i
  {
    if i == METADATA_MAX_ENTRIES then d
    else if IsEmpty(d[i]) && !IsEmpty(d[i + 1]) then
      MoveRecord(d, i);
      MetaScanResult(d[i := d[i + 1]][i + 1 := EmptyRecord], last + 1, last)
    else if IsEmpty(d[i]) then MetaScanResult(d, i + 1, last)
    else MetaScanResult(d, i + 1, i)
  }

  /**
   * What consolidate_metadata guarantees of the directory `t` it leaves,
   * starting from `o`: the records and their order are kept; no empty
   * entry from index 1 on is followed by a used one; entry 0 is only ever
   * filled from entry 1; an empty past-the-end cell stays empty; a dense
   * directory is left as it is.
   */
  predicate MetaConsolidated(t: seq<Game>, o: seq<Game>)
    requires |t| == DIR_CELLS && |o| == DIR_CELLS
  {
    && Listing(t) == Listing(o)
    && (forall j :: 1 <= j < METADATA_MAX_ENTRIES && IsEmpty(t[j]) ==> IsEmpty(t[j + 1]))
    && t[0] == (if IsEmpty(o[0]) then o[1] else o[0])
    && (IsEmpty(o[PAST_END]) ==> IsEmpty(t[PAST_END]))
    && (DirectoryDense(o) ==> t == o)
  }

  /** From any state of the scan, the directory it leaves meets the guarantees. */
  lemma {:induction false} MetaScanSound(d: seq<Game>, o: seq<Game>, i: nat, last: nat)
    requires |d| == DIR_CELLS && |o| == DIR_CELLS
    requires MetaScan(d, o, i, last) == true
    ensures MetaConsolidated(MetaScanResult(d, i, last), o) == true
    decreases Weight(Flags(d)), METADATA_MAX_ENTRIES - i
  {
    if i < METADATA_MAX_ENTRIES {
      if IsEmpty(d[i]) && !IsEmpty(d[i + 1]) {
        var moved := d[i := d[i + 1]][i + 1 := EmptyRecord];
        MetaScanMove(d, o, i, last);
        assert MetaScanResult(d, i, last) == MetaScanResult(moved, last + 1, last);
        MetaScanSound(moved, o, last + 1, last);
      } else if IsEmpty(d[i]) {
        MetaScanSkip(d, o, i, last);
        assert MetaScanResult(d, i, last) == MetaScanResult(d, i + 1, last);
        MetaScanSound(d, o, i + 1, last);
      } else {
        MetaScanUsed(d, o, i, last);
        assert MetaScanResult(d, i, last) == MetaScanResult(d, i + 1, i);
        MetaScanSound(d, o, i + 1, i);
      }
    }
  }

  /** consolidate_metadata's guarantees, for the whole scan. */
  lemma MetadataConsolidation(o: seq<Game>)
    requires |o| == DIR_CELLS
    ensures MetaConsolidated(MetaScanResult(o, 0, 0), o)
  {
    MetaScanStart(o);
    MetaScanSound(o, o, 0, 0);
  }

  /** The directory after one shift: used entries 0..15 naming slot i+1 now name slot i. */
  function Relabelled(d: seq<Game>, i: nat): (r: seq<Game>)
    requires |d| == DIR_CELLS && i < MAX_SLOTS
    ensures |r| == DIR_CELLS
    ensures forall j :: 0 <= j < METADATA_MAX_ENTRIES && !IsEmpty(d[j]) && d[j].slot == i + 1 ==>
              r[j] == d[j].(slot := i)
    ensures forall j :: 0 <= j < DIR_CELLS && (j == PAST_END || IsEmpty(d[j]) || d[j].slot != i + 1) ==>
              r[j] == d[j]
  {
    seq(DIR_CELLS, j requires 0 <= j < DIR_CELLS =>
      if j < METADATA_MAX_ENTRIES && !IsEmpty(d[j]) && d[j].slot == i + 1 then d[j].(slot := i) else d[j])
  }

  /**
   * The slot side of consolidate_flash_games' scan over region `m`, which
   * started as `om`: `i` is the next slot to look at, `last` the last slot
   * seen with the magic (the restart point).
   */
  ghost predicate SlotScan(m: Pages, om: Pages, i: nat, last: nat) {
    && last <= i <= MAX_SLOTS
    && (0 < i ==> last < i)
    && (0 < last ==> HasMagic(m, last))
    && (forall s :: 1 <= s < i && !HasMagic(m, s) ==> !HasMagic(m, s + 1))
    && CountMagic(m, SCANNED_SLOTS) == CountMagic(om, SCANNED_SLOTS)
    && (!HasMagic(om, MAX_SLOTS) ==> !HasMagic(m, MAX_SLOTS) && CountMagic(m, MAX_SLOTS) == CountMagic(om, MAX_SLOTS))
    && (0 < i ==> HasMagic(m, 0) == (HasMagic(om, 0) || HasMagic(om, 1)))
    && (forall k: nat :: k >= SlotBase(SCANNED_SLOTS) ==> PageAt(m, k) == PageAt(om, k))
  }

  /** The directory side: records only had their slot lowered, empty cells and the past-the-end cell are kept. */
  predicate DirRelocated(d: seq<Game>, od: seq<Game>)
    requires |d| == DIR_CELLS && |od| == DIR_CELLS
  {
    && (forall j :: 0 <= j < DIR_CELLS ==> Relocated(d[j], od[j]))
    && (forall j :: 0 <= j < DIR_CELLS && IsEmpty(od[j]) ==> d[j] == od[j])
    && d[PAST_END] == od[PAST_END]
  }

  /** The pages of slot `s`, in order: a game's magic page and its data. */
  function SlotContents(m: Pages, s: nat): (c: seq<Page>)
    ensures |c| == PAGES_PER_SLOT
    ensures forall o :: 0 <= o < PAGES_PER_SLOT ==> c[o] == PageAt(m, SlotBase(s) + o)
  {
    seq(PAGES_PER_SLOT, o requires 0 <= o < PAGES_PER_SLOT => PageAt(m, SlotBase(s) + o))
  }

  /** A shift copies the whole of slot i+1 over slot i and leaves every slot but i and i+1 as it was. */
  lemma ShiftContents(m: Pages, i: nat)
    requires i < MAX_SLOTS
    ensures SlotContents(ShiftedPages(m, i), i) == SlotContents(m, i + 1)
    ensures forall p: nat :: p != i && p != i + 1 ==> SlotContents(ShiftedPages(m, i), p) == SlotContents(m, p)
  {
    var r := ShiftedPages(m, i);
    var copied := CopySlotDown(m, i);
    forall o | 0 <= o < PAGES_PER_SLOT
      ensures SlotContents(r, i)[o] == SlotContents(m, i + 1)[o]
    {
      assert PageAt(r, SlotBase(i) + o) == PageAt(copied, SlotBase(i) + o);
    }
    forall p: nat | p != i && p != i + 1
      ensures SlotContents(r, p) == SlotContents(m, p)
    {
      forall o | 0 <= o < PAGES_PER_SLOT
        ensures SlotContents(r, p)[o] == SlotContents(m, p)[o]
      {
        var k := SlotBase(p) + o;
        assert p < i || p > i + 1;
        assert k < SlotBase(i) || k >= SlotBase(i + 2);
        assert PageAt(r, k) == PageAt(copied, k);
      }
    }
  }

  /** Nothing relocated yet: every game is where it started. */
  function Unmoved(): (moved: seq<nat>)
    ensures |moved| == SCANNED_SLOTS
    ensures forall s :: 0 <= s < SCANNED_SLOTS ==> moved[s] == s
  {
    seq(SCANNED_SLOTS, s requires 0 <= s => s)
  }

  /** The relocation after one more shift of slot i+1 into slot i: whatever lay in i+1 now lies in i. */
  function ShiftedRelocation(moved: seq<nat>, i: nat): (r: seq<nat>)
    ensures |r| == |moved|
    ensures forall s :: 0 <= s < |moved| ==> r[s] == if moved[s] == i + 1 then i else moved[s]
  {
    seq(|moved|, s requires 0 <= s < |moved| => if moved[s] == i + 1 then i else moved[s])
  }

  /**
   * Where consolidate_flash_games has taken the magic-bearing slots of
   * region `om`: the slot whose magic was in slot s now lies, all 400 of its
   * pages, in slot moved[s], which carries the magic and is no higher than
   * s; such slots keep their order; and every used entry among 0..15 that
   * named such a slot now names the slot it went to. Only a game's first
   * slot carries the magic, so this says nothing of a game's later slots
   * (see MultiSlotLost).
   */
  ghost predicate Relocation(m: Pages, d: seq<Game>, om: Pages, od: seq<Game>, moved: seq<nat>)
    requires |d| == DIR_CELLS && |od| == DIR_CELLS
  {
    && |moved| == SCANNED_SLOTS
    && (forall s :: 0 <= s < SCANNED_SLOTS && HasMagic(om, s) ==>
          moved[s] <= s && HasMagic(m, moved[s]) && SlotContents(m, moved[s]) == SlotContents(om, s))
    && (forall s, t :: 0 <= s < t < SCANNED_SLOTS && HasMagic(om, s) && HasMagic(om, t) ==> moved[s] < moved[t])
    && (forall j :: 0 <= j < METADATA_MAX_ENTRIES && !IsEmpty(od[j]) && od[j].slot < SCANNED_SLOTS && HasMagic(om, od[j].slot) ==>
          d[j].slot == moved[od[j].slot])
  }

  lemma RelocationStart(om: Pages, od: seq<Game>)
    requires |od| == DIR_CELLS
    ensures Relocation(om, od, om, od, Unmoved())
  {
  }

  /**
   * One shift (lines 212-223) carries the 400 pages of slot i+1 into slot i,
   * and the records naming it with them: the relocation follows the shift.
   */
  lemma RelocationShift(m: Pages, d: seq<Game>, om: Pages, od: seq<Game>, moved: seq<nat>, i: nat)
    requires |d| == DIR_CELLS && |od| == DIR_CELLS && i < MAX_SLOTS
    requires !HasMagic(m, i) && HasMagic(m, i + 1)
    requires Relocation(m, d, om, od, moved)
    ensures Relocation(ShiftedPages(m, i), Relabelled(d, i), om, od, ShiftedRelocation(moved, i))
  {
    GamesFollowShift(m, om, moved, i);
    RecordsFollowShift(d, om, od, moved, i);
  }

  /** The games' pages and order under one shift. */
  lemma GamesFollowShift(m: Pages, om: Pages, moved: seq<nat>, i: nat)
    requires i < MAX_SLOTS && |moved| == SCANNED_SLOTS
    requires !HasMagic(m, i) && HasMagic(m, i + 1)
    requires forall s :: 0 <= s < SCANNED_SLOTS && HasMagic(om, s) ==>
               moved[s] <= s && HasMagic(m, moved[s]) && SlotContents(m, moved[s]) == SlotContents(om, s)
    requires forall s, t :: 0 <= s < t < SCANNED_SLOTS && HasMagic(om, s) && HasMagic(om, t) ==> moved[s] < moved[t]
    ensures forall s :: 0 <= s < SCANNED_SLOTS && HasMagic(om, s) ==>
              ShiftedRelocation(moved, i)[s] <= s && HasMagic(ShiftedPages(m, i), ShiftedRelocation(moved, i)[s]) &&
              SlotContents(ShiftedPages(m, i), ShiftedRelocation(moved, i)[s]) == SlotContents(om, s)
    ensures forall s, t :: 0 <= s < t < SCANNED_SLOTS && HasMagic(om, s) && HasMagic(om, t) ==>
              ShiftedRelocation(moved, i)[s] < ShiftedRelocation(moved, i)[t]
  {
    GamesMoveWhole(m, om, moved, i);
    GamesKeepOrder(m, om, moved, i);
  }

  /** Each magic-bearing slot's 400 pages lie where the relocation after the shift says. */
  lemma GamesMoveWhole(m: Pages, om: Pages, moved: seq<nat>, i: nat)
    requires i < MAX_SLOTS && |moved| == SCANNED_SLOTS
    requires !HasMagic(m, i) && HasMagic(m, i + 1)
    requires forall s :: 0 <= s < SCANNED_SLOTS && HasMagic(om, s) ==>
               moved[s] <= s && HasMagic(m, moved[s]) && SlotContents(m, moved[s]) == SlotContents(om, s)
    ensures forall s :: 0 <= s < SCANNED_SLOTS && HasMagic(om, s) ==>
              ShiftedRelocation(moved, i)[s] <= s && HasMagic(ShiftedPages(m, i), ShiftedRelocation(moved, i)[s]) &&
              SlotContents(ShiftedPages(m, i), ShiftedRelocation(moved, i)[s]) == SlotContents(om, s)
  {
    forall s | 0 <= s < SCANNED_SLOTS && HasMagic(om, s)
      ensures ShiftedRelocation(moved, i)[s] <= s && HasMagic(ShiftedPages(m, i), ShiftedRelocation(moved, i)[s]) &&
              SlotContents(ShiftedPages(m, i), ShiftedRelocation(moved, i)[s]) == SlotContents(om, s)
    {
      GameMoves(m, moved[s], i);
    }
  }

  /** A game that lies in slot p, which carries the magic, lies after a shift at p, or at i when p is i+1. */
  lemma GameMoves(m: Pages, p: nat, i: nat)
    requires i < MAX_SLOTS && p < SCANNED_SLOTS && !HasMagic(m, i) && HasMagic(m, i + 1) && HasMagic(m, p)
    ensures p != i
    ensures HasMagic(ShiftedPages(m, i), if p == i + 1 then i else p)
    ensures SlotContents(ShiftedPages(m, i), if p == i + 1 then i else p) == SlotContents(m, p)
  {
    ShiftMagicAt(m, i);
    ShiftContents(m, i);
    if p == i + 1 {
      assert SlotContents(ShiftedPages(m, i), i) == SlotContents(m, i + 1);
    } else {
      assert p != i;
      assert SlotContents(ShiftedPages(m, i), p) == SlotContents(m, p);
    }
  }

  /** The shift keeps the games in their order. */
  lemma GamesKeepOrder(m: Pages, om: Pages, moved: seq<nat>, i: nat)
    requires i < MAX_SLOTS && |moved| == SCANNED_SLOTS
    requires !HasMagic(m, i)
    requires forall s :: 0 <= s < SCANNED_SLOTS && HasMagic(om, s) ==> HasMagic(m, moved[s])
    requires forall s, t :: 0 <= s < t < SCANNED_SLOTS && HasMagic(om, s) && HasMagic(om, t) ==> moved[s] < moved[t]
    ensures forall s, t :: 0 <= s < t < SCANNED_SLOTS && HasMagic(om, s) && HasMagic(om, t) ==>
              ShiftedRelocation(moved, i)[s] < ShiftedRelocation(moved, i)[t]
  {
    var mv := ShiftedRelocation(moved, i);
    forall s, t | 0 <= s < t < SCANNED_SLOTS && HasMagic(om, s) && HasMagic(om, t)
      ensures mv[s] < mv[t]
    {
      assert moved[s] != i && moved[t] != i;
    }
  }

  /** The records under one shift: those naming slot i+1 go with its game to slot i. */
  lemma RecordsFollowShift(d: seq<Game>, om: Pages, od: seq<Game>, moved: seq<nat>, i: nat)
    requires |d| == DIR_CELLS && |od| == DIR_CELLS && i < MAX_SLOTS && |moved| == SCANNED_SLOTS
    requires forall j :: 0 <= j < METADATA_MAX_ENTRIES && !IsEmpty(od[j]) && od[j].slot < SCANNED_SLOTS && HasMagic(om, od[j].slot) ==>
               d[j].slot == moved[od[j].slot]
    ensures forall j :: 0 <= j < METADATA_MAX_ENTRIES && !IsEmpty(od[j]) && od[j].slot < SCANNED_SLOTS && HasMagic(om, od[j].slot) ==>
              Relabelled(d, i)[j].slot == ShiftedRelocation(moved, i)[od[j].slot]
  {
    var e := Relabelled(d, i);
    forall j | 0 <= j < METADATA_MAX_ENTRIES && !IsEmpty(od[j]) && od[j].slot < SCANNED_SLOTS && HasMagic(om, od[j].slot)
      ensures e[j].slot == ShiftedRelocation(moved, i)[od[j].slot]
    {
      if d[j].slot == i + 1 {
        assert !IsEmpty(d[j]);
      }
    }
  }

  /** The whole state of consolidate_flash_games' scan; `moved` records where each magic-bearing slot has gone. */
  ghost predicate FlashScan(m: Pages, d: seq<Game>, om: Pages, od: seq<Game>, moved: seq<nat>, i: nat, last: nat)
    requires |d| == DIR_CELLS && |od| == DIR_CELLS
  {
    && SlotScan(m, om, i, last)
    && DirRelocated(d, od)
    && Relocation(m, d, om, od, moved)
    && (i == 0 ==> m == om && d == od)
    && (SlotsDense(om) ==> m == om && d == od)
  }

  lemma FlashScanStart(om: Pages, od: seq<Game>)
    requires |od| == DIR_CELLS
    ensures FlashScan(om, od, om, od, Unmoved(), 0, 0)
  {
    RelocationStart(om, od);
  }

  lemma SlotScanShift(m: Pages, om: Pages, i: nat, last: nat)
    requires SlotScan(m, om, i, last) && i < MAX_SLOTS
    requires !HasMagic(m, i) && HasMagic(m, i + 1)
    requires i == 0 ==> m == om
    ensures SlotScan(ShiftedPages(m, i), om, last + 1, last)
    ensures Weight(MagicFlags(ShiftedPages(m, i))) < Weight(MagicFlags(m))
  {
    var r := ShiftedPages(m, i);
    ShiftMovesMagic(m, i);
    ShiftMagicAt(m, i);
    ShiftKeepsHigh(m, i);
    forall s | 1 <= s < last + 1 && !HasMagic(r, s)
      ensures !HasMagic(r, s + 1)
    {
      assert s < i && HasMagic(r, s) == HasMagic(m, s);
      if s + 1 < i {
        assert HasMagic(r, s + 1) == HasMagic(m, s + 1);
      }
    }
    assert HasMagic(r, 0) == (HasMagic(om, 0) || HasMagic(om, 1)) by {
      if i > 0 {
        assert HasMagic(r, 0) == HasMagic(m, 0);
      }
    }
    if !HasMagic(om, MAX_SLOTS) {
      assert i + 1 < MAX_SLOTS;
      assert HasMagic(r, MAX_SLOTS) == HasMagic(m, MAX_SLOTS);
    }
  }

  /** A shift below the past-the-end slot leaves the pages from slot 8 on alone. */
  lemma ShiftKeepsHigh(m: Pages, i: nat)
    requires i < MAX_SLOTS
    ensures forall k: nat :: k >= SlotBase(SCANNED_SLOTS) ==> PageAt(ShiftedPages(m, i), k) == PageAt(m, k)
  {
    forall k: nat | k >= SlotBase(SCANNED_SLOTS)
      ensures PageAt(ShiftedPages(m, i), k) == PageAt(m, k)
    {
      var copied := CopySlotDown(m, i);
      assert k != SlotBase(i + 1) && !(SlotBase(i) <= k < SlotBase(i + 1));
      assert PageAt(ShiftedPages(m, i), k) == PageAt(copied, k) == PageAt(m, k);
    }
  }

  lemma DirRelabelled(d: seq<Game>, od: seq<Game>, i: nat)
    requires |d| == DIR_CELLS && |od| == DIR_CELLS && i < MAX_SLOTS
    requires DirRelocated(d, od)
    ensures DirRelocated(Relabelled(d, i), od)
  {
  }

  /** A slot without the magic followed by one with it: the game shifts down and the scan restarts. */
  lemma FlashScanShift(m: Pages, d: seq<Game>, om: Pages, od: seq<Game>, moved: seq<nat>, i: nat, last: nat)
    requires |d| == DIR_CELLS && |od| == DIR_CELLS
    requires FlashScan(m, d, om, od, moved, i, last) == true && i < MAX_SLOTS
    requires !HasMagic(m, i) && HasMagic(m, i + 1)
    ensures FlashScan(ShiftedPages(m, i), Relabelled(d, i), om, od, ShiftedRelocation(moved, i), last + 1, last) == true
    ensures Weight(MagicFlags(ShiftedPages(m, i))) < Weight(MagicFlags(m))
  {
    SlotScanShift(m, om, i, last);
    DirRelabelled(d, od, i);
    RelocationShift(m, d, om, od, moved, i);
  }

  /** Two slots without the magic in a row: the scan moves on. */
  lemma FlashScanSkip(m: Pages, d: seq<Game>, om: Pages, od: seq<Game>, moved: seq<nat>, i: nat, last: nat)
    requires |d| == DIR_CELLS && |od| == DIR_CELLS
    requires FlashScan(m, d, om, od, moved, i, last) == true && i < MAX_SLOTS
    requires !HasMagic(m, i) && !HasMagic(m, i + 1)
    ensures FlashScan(m, d, om, od, moved, i + 1, last) == true
  {
  }

  /** A slot with the magic: it becomes the restart point. */
  lemma FlashScanUsed(m: Pages, d: seq<Game>, om: Pages, od: seq<Game>, moved: seq<nat>, i: nat, last: nat)
    requires |d| == DIR_CELLS && |od| == DIR_CELLS
    requires FlashScan(m, d, om, od, moved, i, last) == true && i < MAX_SLOTS
    requires HasMagic(m, i)
    ensures FlashScan(m, d, om, od, moved, i + 1, i) == true
  {
  }

  /**
   * What consolidate_flash_games guarantees of the region `m` and directory
   * `d` it leaves, starting from `om` and `od`: the magic count over slots
   * 0..7 is kept (over 0..6 too when slot 7 had no magic); no slot from 1 on
   * without the magic precedes one with it; slot 0 gains the magic only from
   * slot 1; records only have their slot lowered, and empty entries, the
   * past-the-end cell and flash past slot 7 are kept; a dense region is left
   * as it is; and every magic-bearing slot (a game's first slot) moved
   * with its 400 pages, in order, its records following it.
   */
  ghost predicate FlashConsolidated(m: Pages, d: seq<Game>, om: Pages, od: seq<Game>)
    requires |d| == DIR_CELLS && |od| == DIR_CELLS
  {
    && CountMagic(m, SCANNED_SLOTS) == CountMagic(om, SCANNED_SLOTS)
    && (!HasMagic(om, MAX_SLOTS) ==> !HasMagic(m, MAX_SLOTS) && CountMagic(m, MAX_SLOTS) == CountMagic(om, MAX_SLOTS))
    && (forall s :: 1 <= s < MAX_SLOTS && !HasMagic(m, s) ==> !HasMagic(m, s + 1))
    && HasMagic(m, 0) == (HasMagic(om, 0) || HasMagic(om, 1))
    && DirRelocated(d, od)
    && (forall k: nat :: k >= SlotBase(SCANNED_SLOTS) ==> PageAt(m, k) == PageAt(om, k))
    && (SlotsDense(om) ==> m == om && d == od)
    && (exists moved :: Relocation(m, d, om, od, moved))
  }

  /** The scan at its end: the guarantees of consolidate_flash_games. */
  lemma FlashScanDone(m: Pages, d: seq<Game>, om: Pages, od: seq<Game>, moved: seq<nat>, last: nat)
    requires |d| == DIR_CELLS && |od| == DIR_CELLS
    requires FlashScan(m, d, om, od, moved, MAX_SLOTS, last)
    ensures FlashConsolidated(m, d, om, od)
  {
  }

  /**
   * The slot region and directory that consolidate_flash_games' scan
   * (lines 205-231) leaves when it resumes at slot `i` with restart point
   * `last`.
   */
  function FlashScanResult(m: Pages, d: seq<Game>, i: nat, last: nat): (r: (Pages, seq<Game>))
    requires |d| == DIR_CELLS && last <= i <= MAX_SLOTS
    ensures |r.1| == DIR_CELLS
    decreases Weight(MagicFlags(m)), MAX_SLOTS - i
  {
    if i == MAX_SLOTS then (m, d)
    else if !HasMagic(m, i) && HasMagic(m, i + 1) then
      ShiftMovesMagic(m, i);
      FlashScanResult(ShiftedPages(m, i), Relabelled(d, i), last + 1, last)
    else if !HasMagic(m, i) then FlashScanResult(m, d, i + 1, last)
    else FlashScanResult(m, d, i + 1, i)
  }

  /**
   * One pass of the scan at slot `i` (a shift, or none) from `m`, `d` to
   * `m'`, `d'`: the scan goes on from there to the same result.
   */
  lemma PassKeepsResult(m: Pages, d: seq<Game>, i: nat, last: nat, m': Pages, d': seq<Game>, i': nat, last': nat)
    requires |d| == DIR_CELLS && |d'| == DIR_CELLS && last <= i < MAX_SLOTS
    requires !HasMagic(m, i) && HasMagic(m, i + 1) ==>
               m' == ShiftedPages(m, i) && d' == Relabelled(d, i) && i' == last + 1 && last' == last
    requires HasMagic(m, i) || !HasMagic(m, i + 1) ==>
               m' == m && d' == d && i' == i + 1 && last' == (if HasMagic(m, i) then i else last)
    ensures last' <= i' <= MAX_SLOTS
    ensures FlashScanResult(m', d', i', last') == FlashScanResult(m, d, i, last)
  {
    if !HasMagic(m, i) && HasMagic(m, i + 1) {
      assert (m', d', i', last') == (ShiftedPages(m, i), Relabelled(d, i), last + 1, last);
      ShiftStep(m, d, i, last);
    } else {
      assert (m', d', i', last') == (m, d, i + 1, if HasMagic(m, i) then i else last);
      PassStep(m, d, i, last);
    }
  }

  /** A shift at `i`: the scan goes on from the shifted state, after `last`. */
  lemma ShiftStep(m: Pages, d: seq<Game>, i: nat, last: nat)
    requires |d| == DIR_CELLS && last <= i < MAX_SLOTS
    requires !HasMagic(m, i) && HasMagic(m, i + 1)
    ensures FlashScanResult(m, d, i, last) == FlashScanResult(ShiftedPages(m, i), Relabelled(d, i), last + 1, last)
  {
    ShiftMovesMagic(m, i);
  }

  /** No shift at `i`: the scan goes on from `i + 1`, a slot with the magic becoming the restart point. */
  lemma PassStep(m: Pages, d: seq<Game>, i: nat, last: nat)
    requires |d| == DIR_CELLS && last <= i < MAX_SLOTS
    requires HasMagic(m, i) || !HasMagic(m, i + 1)
    ensures FlashScanResult(m, d, i, last) == FlashScanResult(m, d, i + 1, if HasMagic(m, i) then i else last)
  {
  }

  /** Shifting at `i` leads the scan to the result it reaches from the shifted state. */
  lemma ShiftResult(m: Pages, d: seq<Game>, om: Pages, od: seq<Game>, i: nat, last: nat)
    requires |d| == DIR_CELLS && |od| == DIR_CELLS && last <= i < MAX_SLOTS
    requires !HasMagic(m, i) && HasMagic(m, i + 1)
    requires FlashConsolidated(FlashScanResult(ShiftedPages(m, i), Relabelled(d, i), last + 1, last).0,
                               FlashScanResult(ShiftedPages(m, i), Relabelled(d, i), last + 1, last).1, om, od) == true
    ensures FlashConsolidated(FlashScanResult(m, d, i, last).0, FlashScanResult(m, d, i, last).1, om, od) == true
  {
    ShiftStep(m, d, i, last);
  }

  /** Passing slot `i` leads the scan to the result it reaches from `i + 1`. */
  lemma PassResult(m: Pages, d: seq<Game>, om: Pages, od: seq<Game>, i: nat, last: nat, last': nat)
    requires |d| == DIR_CELLS && |od| == DIR_CELLS && last <= i < MAX_SLOTS
    requires HasMagic(m, i) || !HasMagic(m, i + 1)
    requires last' == if HasMagic(m, i) then i else last
    requires FlashConsolidated(FlashScanResult(m, d, i + 1, last').0, FlashScanResult(m, d, i + 1, last').1, om, od) == true
    ensures FlashConsolidated(FlashScanResult(m, d, i, last).0, FlashScanResult(m, d, i, last).1, om, od) == true
  {
    PassStep(m, d, i, last);
  }

  /** From any state of the scan, what it leaves meets the guarantees. */
  lemma {:induction false} FlashScanSound(m: Pages, d: seq<Game>, om: Pages, od: seq<Game>, moved: seq<nat>, i: nat, last: nat)
    requires |d| == DIR_CELLS && |od| == DIR_CELLS
    requires FlashScan(m, d, om, od, moved, i, last) == true
    ensures FlashConsolidated(FlashScanResult(m, d, i, last).0, FlashScanResult(m, d, i, last).1, om, od) == true
    decreases Weight(MagicFlags(m)), MAX_SLOTS - i, 1
  {
    if i == MAX_SLOTS {
      FlashScanDone(m, d, om, od, moved, last);
    } else if !HasMagic(m, i) && HasMagic(m, i + 1) {
      SoundAfterShift(m, d, om, od, moved, i, last);
    } else if !HasMagic(m, i) {
      SoundAfterSkip(m, d, om, od, moved, i, last);
    } else {
      SoundAfterUsed(m, d, om, od, moved, i, last);
    }
  }

  lemma {:induction false} SoundAfterShift(m: Pages, d: seq<Game>, om: Pages, od: seq<Game>, moved: seq<nat>, i: nat, last: nat)
    requires |d| == DIR_CELLS && |od| == DIR_CELLS
    requires FlashScan(m, d, om, od, moved, i, last) == true
    requires i < MAX_SLOTS && !HasMagic(m, i) && HasMagic(m, i + 1)
    ensures FlashConsolidated(FlashScanResult(m, d, i, last).0, FlashScanResult(m, d, i, last).1, om, od) == true
    decreases Weight(MagicFlags(m)), MAX_SLOTS - i, 0
  {
    FlashScanShift(m, d, om, od, moved, i, last);
    FlashScanSound(ShiftedPages(m, i), Relabelled(d, i), om, od, ShiftedRelocation(moved, i), last + 1, last);
    ShiftResult(m, d, om, od, i, last);
  }

  lemma {:induction false} SoundAfterSkip(m: Pages, d: seq<Game>, om: Pages, od: seq<Game>, moved: seq<nat>, i: nat, last: nat)
    requires |d| == DIR_CELLS && |od| == DIR_CELLS
    requires FlashScan(m, d, om, od, moved, i, last) == true
    requires i < MAX_SLOTS && !HasMagic(m, i) && !HasMagic(m, i + 1)
    ensures FlashConsolidated(FlashScanResult(m, d, i, last).0, FlashScanResult(m, d, i, last).1, om, od) == true
    decreases Weight(MagicFlags(m)), MAX_SLOTS - i, 0
  {
    FlashScanSkip(m, d, om, od, moved, i, last);
    FlashScanSound(m, d, om, od, moved, i + 1, last);
    PassResult(m, d, om, od, i, last, last);
  }

  lemma {:induction false} SoundAfterUsed(m: Pages, d: seq<Game>, om: Pages, od: seq<Game>, moved: seq<nat>, i: nat, last: nat)
    requires |d| == DIR_CELLS && |od| == DIR_CELLS
    requires FlashScan(m, d, om, od, moved, i, last) == true
    requires i < MAX_SLOTS && HasMagic(m, i)
    ensures FlashConsolidated(FlashScanResult(m, d, i, last).0, FlashScanResult(m, d, i, last).1, om, od) == true
    decreases Weight(MagicFlags(m)), MAX_SLOTS - i, 0
  {
    FlashScanUsed(m, d, om, od, moved, i, last);
    FlashScanSound(m, d, om, od, moved, i + 1, i);
    PassResult(m, d, om, od, i, last, i);
  }

  /** consolidate_flash_games' guarantees, for the whole scan. */
  lemma FlashConsolidation(om: Pages, od: seq<Game>)
    requires |od| == DIR_CELLS
    ensures FlashConsolidated(FlashScanResult(om, od, 0, 0).0, FlashScanResult(om, od, 0, 0).1, om, od)
  {
    FlashScanStart(om, od);
    FlashScanSound(om, od, om, od, Unmoved(), 0, 0);
  }

  /**
   * After consolidate_flash_games, a record that named a slot carrying a
   * game still names that game: a slot no higher than before, carrying the
   * magic and the same pages. So a directory whose records all named slots
   * with the magic still does.
   */
  lemma RecordsFollowGames(m: Pages, d: seq<Game>, om: Pages, od: seq<Game>)
    requires |d| == DIR_CELLS && |od| == DIR_CELLS
    requires FlashConsolidated(m, d, om, od)
    ensures forall j :: 0 <= j < METADATA_MAX_ENTRIES && !IsEmpty(od[j]) && od[j].slot < SCANNED_SLOTS && HasMagic(om, od[j].slot) ==>
              d[j].slot <= od[j].slot && HasMagic(m, d[j].slot) && SlotContents(m, d[j].slot) == SlotContents(om, od[j].slot)
    ensures (forall j :: 0 <= j < METADATA_MAX_ENTRIES && !IsEmpty(od[j]) ==> od[j].slot < SCANNED_SLOTS && HasMagic(om, od[j].slot)) ==>
              forall j :: 0 <= j < METADATA_MAX_ENTRIES && !IsEmpty(d[j]) ==> HasMagic(m, d[j].slot)
  {
    var moved :| Relocation(m, d, om, od, moved);
  }

  /**
   * A game of two slots loses its second slot. Only a game's first slot
   * carries the magic, and a shift (line 212) moves one slot. So with game A
   * in slots 1 and 2 (magic at 1 only) and game B in slot 3, the scan moves A's
   * first slot to 0 and B to slot 1, over A's second slot. A's records now name
   * slot 0, and the slot after it holds B.
   */
  lemma MultiSlotLost(m: Pages, d: seq<Game>)
    requires |d| == DIR_CELLS
    requires !HasMagic(m, 0) && HasMagic(m, 1) && !HasMagic(m, 2) && HasMagic(m, 3)
    requires forall s :: 4 <= s < SCANNED_SLOTS ==> !HasMagic(m, s)
    ensures SlotContents(FlashScanResult(m, d, 0, 0).0, 0) == SlotContents(m, 1)
    ensures SlotContents(FlashScanResult(m, d, 0, 0).0, 1) == SlotContents(m, 3)
    ensures forall j :: 0 <= j < METADATA_MAX_ENTRIES && !IsEmpty(d[j]) && d[j].slot == 1 ==>
              FlashScanResult(m, d, 0, 0).1[j].slot == 0
  {
    LostFirstShift(m, d);
    LostSecondShift(ShiftedPages(m, 0), Relabelled(d, 0));
    LostThirdShift(ShiftedPages(ShiftedPages(m, 0), 2), Relabelled(Relabelled(d, 0), 2));
    LostRest(ShiftedPages(ShiftedPages(ShiftedPages(m, 0), 2), 1), Relabelled(Relabelled(Relabelled(d, 0), 2), 1));
    LostPages(m);
    LostRecords(d);
  }

  /** The pages of MultiSlotLost's three shifts: slot 0 ends with slot 1's pages, slot 1 with slot 3's. */
  lemma LostPages(m: Pages)
    ensures SlotContents(ShiftedPages(ShiftedPages(ShiftedPages(m, 0), 2), 1), 0) == SlotContents(m, 1)
    ensures SlotContents(ShiftedPages(ShiftedPages(ShiftedPages(m, 0), 2), 1), 1) == SlotContents(m, 3)
  {
    var m1 := ShiftedPages(m, 0);
    var m2 := ShiftedPages(m1, 2);
    ShiftContents(m, 0);
    ShiftContents(m1, 2);
    ShiftContents(m2, 1);
    assert SlotContents(m2, 0) == SlotContents(m1, 0);
    assert SlotContents(m1, 3) == SlotContents(m, 3);
  }

  /** The records of MultiSlotLost's three relabellings: a record naming slot 1 ends naming slot 0. */
  lemma LostRecords(d: seq<Game>)
    requires |d| == DIR_CELLS
    ensures forall j :: 0 <= j < METADATA_MAX_ENTRIES && !IsEmpty(d[j]) && d[j].slot == 1 ==>
              Relabelled(Relabelled(Relabelled(d, 0), 2), 1)[j].slot == 0
  {
  }

  /** MultiSlotLost, first shift: slot 1 moves to 0 and the scan passes slot 1. */
  lemma LostFirstShift(m: Pages, d: seq<Game>)
    requires |d| == DIR_CELLS
    requires !HasMagic(m, 0) && HasMagic(m, 1) && !HasMagic(m, 2) && HasMagic(m, 3)
    requires forall s :: 4 <= s < SCANNED_SLOTS ==> !HasMagic(m, s)
    ensures FlashScanResult(m, d, 0, 0) == FlashScanResult(ShiftedPages(m, 0), Relabelled(d, 0), 2, 0)
    ensures var r := ShiftedPages(m, 0);
            HasMagic(r, 0) && !HasMagic(r, 1) && !HasMagic(r, 2) && HasMagic(r, 3) &&
            forall s :: 4 <= s < SCANNED_SLOTS ==> !HasMagic(r, s)
  {
    ShiftMagicAt(m, 0);
    ShiftStep(m, d, 0, 0);
    PassStep(ShiftedPages(m, 0), Relabelled(d, 0), 1, 0);
  }

  /** MultiSlotLost, second shift: slot 3 moves over slot 2 and the scan restarts at 1. */
  lemma LostSecondShift(m: Pages, d: seq<Game>)
    requires |d| == DIR_CELLS
    requires HasMagic(m, 0) && !HasMagic(m, 1) && !HasMagic(m, 2) && HasMagic(m, 3)
    requires forall s :: 4 <= s < SCANNED_SLOTS ==> !HasMagic(m, s)
    ensures FlashScanResult(m, d, 2, 0) == FlashScanResult(ShiftedPages(m, 2), Relabelled(d, 2), 1, 0)
    ensures var r := ShiftedPages(m, 2);
            HasMagic(r, 0) && !HasMagic(r, 1) && HasMagic(r, 2) &&
            forall s :: 3 <= s < SCANNED_SLOTS ==> !HasMagic(r, s)
  {
    ShiftMagicAt(m, 2);
    ShiftStep(m, d, 2, 0);
  }

  /** MultiSlotLost, third shift: slot 2 moves on to 1. */
  lemma LostThirdShift(m: Pages, d: seq<Game>)
    requires |d| == DIR_CELLS
    requires HasMagic(m, 0) && !HasMagic(m, 1) && HasMagic(m, 2)
    requires forall s :: 3 <= s < SCANNED_SLOTS ==> !HasMagic(m, s)
    ensures FlashScanResult(m, d, 1, 0) == FlashScanResult(ShiftedPages(m, 1), Relabelled(d, 1), 1, 0)
    ensures var r := ShiftedPages(m, 1);
            HasMagic(r, 1) && forall s :: 2 <= s < SCANNED_SLOTS ==> !HasMagic(r, s)
  {
    ShiftMagicAt(m, 1);
    ShiftStep(m, d, 1, 0);
  }

  /** MultiSlotLost, the rest of the scan: slot 1 is passed and nothing is left to move. */
  lemma LostRest(m: Pages, d: seq<Game>)
    requires |d| == DIR_CELLS
    requires HasMagic(m, 1) && forall s :: 2 <= s < SCANNED_SLOTS ==> !HasMagic(m, s)
    ensures FlashScanResult(m, d, 1, 0) == (m, d)
  {
    PassStep(m, d, 1, 0);
    ScanIdle(m, d, 2, 1);
  }

  /** From a slot on which no slot up to 7 carries the magic, the scan changes nothing. */
  lemma {:induction false} ScanIdle(m: Pages, d: seq<Game>, i: nat, last: nat)
    requires |d| == DIR_CELLS && last <= i <= MAX_SLOTS
    requires forall s :: i <= s < SCANNED_SLOTS ==> !HasMagic(m, s)
    ensures FlashScanResult(m, d, i, last) == (m, d)
    decreases MAX_SLOTS - i
  {
    if i < MAX_SLOTS {
      ScanIdle(m, d, i + 1, last);
    }
  }

  /** A record that only had its slot lowered. */
  predicate Relocated(now: Game, was: Game) {
    now.name == was.name && now.location == was.location && now.sizeB == was.sizeB && now.slot <= was.slot
  }
}
