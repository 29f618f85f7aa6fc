/**
 * The read-only queries over the directory and the slot region:
 * get_games, get_available_game_slots, get_available_flash_slots_at_end,
 * get_last_open_flash_slot and get_last_open_metadata_slot. Each works on
 * the 16 directory entries (and, for the first, on the slot region) as they
 * stand in flash, so they are functions of those values.
 */
module Scans {
  import opened Geometry
  import opened Records

  /** The non-empty records of a directory, in directory order. */
  function Listing(d: seq<Game>): (r: seq<Game>)
    ensures |r| <= |d|
    ensures forall k :: 0 <= k < |r| ==> !IsEmpty(r[k])
  {
    if d == [] then []
    else (if IsEmpty(d[0]) then [] else [d[0]]) + Listing(d[1..])
  }

  lemma {:induction false} ListingConcat(a: seq<Game>, b: seq<Game>)
    ensures Listing(a + b) == Listing(a) + Listing(b)
  {
    if a == [] {
      assert a + b == b;
    } else {
      assert (a + b)[1..] == a[1..] + b;
      ListingConcat(a[1..], b);
    }
  }

  /** The listing of one more entry. */
  lemma ListingStep(d: seq<Game>, i: nat)
    requires i < |d|
    ensures Listing(d[..i + 1]) == Listing(d[..i]) + (if IsEmpty(d[i]) then [] else [d[i]])
  {
    ListingConcat(d[..i], [d[i]]);
    assert d[..i + 1] == d[..i] + [d[i]];
  }

  /** Number of empty entries (the first loop of get_available_game_slots). */
  function CountEmpty(d: seq<Game>): (n: nat)
    ensures n <= |d|
  {
    if d == [] then 0
    else (if IsEmpty(d[0]) then 1 else 0) + CountEmpty(d[1..])
  }

  /** Every entry is either listed or counted as empty. */
  lemma {:induction false} ListingAndEmpties(d: seq<Game>)
    ensures |Listing(d)| + CountEmpty(d) == |d|
  {
    if d != [] {
      ListingAndEmpties(d[1..]);
    }
  }

  /** An entry that stays empty when the directory changes keeps the empty count from falling. */
  lemma {:induction false} CountEmptyMonotone(a: seq<Game>, b: seq<Game>)
    requires |a| == |b|
    requires forall j :: 0 <= j < |a| && IsEmpty(a[j]) ==> IsEmpty(b[j])
    ensures CountEmpty(b) >= CountEmpty(a)
  {
    if a != [] {
      CountEmptyMonotone(a[1..], b[1..]);
    }
  }

  /** Number of slots among 0..n-1 whose first bytes are the magic (second loop). */
  function CountMagic(m: Pages, n: nat): (c: nat)
    ensures c <= n
  {
    if n == 0 then 0
    else CountMagic(m, n - 1) + (if HasMagic(m, n - 1) then 1 else 0)
  }

  /**
   * get_available_game_slots: the smaller of the empty directory entries and
   * the slots that CARRY the magic (the code counts occupied slots here).
   */
  function AvailableGameSlots(d: seq<Game>, m: Pages): (r: nat)
    requires |d| == METADATA_MAX_ENTRIES
    ensures r <= CountEmpty(d) && r <= CountMagic(m, MAX_SLOTS)
    ensures r == CountEmpty(d) || r == CountMagic(m, MAX_SLOTS)
  {
    var metadataSlots := CountEmpty(d);
    var flashSlots := CountMagic(m, MAX_SLOTS);
    if flashSlots < metadataSlots then flashSlots else metadataSlots
  }

  /** The largest `slot` of a non-empty record, 0 when there is none. */
  function HighestSlot(d: seq<Game>): (h: nat)
    ensures forall j :: 0 <= j < |d| && !IsEmpty(d[j]) ==> d[j].slot <= h
    ensures h == 0 || exists j :: 0 <= j < |d| && !IsEmpty(d[j]) && d[j].slot == h
  {
    if d == [] then 0
    else
      var h := HighestSlot(d[..|d| - 1]);
      var last := d[|d| - 1];
      if !IsEmpty(last) && last.slot > h then last.slot else h
  }

  /**
   * get_last_open_flash_slot: one past the highest slot any record names,
   * read from the directory alone; 1 on an empty directory.
   */
  function LastOpenFlashSlot(d: seq<Game>): (r: nat)
    ensures r >= 1
    ensures forall j :: 0 <= j < |d| && !IsEmpty(d[j]) ==> d[j].slot < r
    ensures r == 1 || exists j :: 0 <= j < |d| && !IsEmpty(d[j]) && d[j].slot == r - 1
  {
    HighestSlot(d) + 1
  }

  /**
   * get_last_open_flash_slot reads only the highest slot a record names, not
   * how many slots that record's game takes: when that game takes two slots
   * or more, the slot offered lies inside it.
   */
  lemma NextSlotIgnoresSize(d: seq<Game>, j: nat)
    requires j < |d| && !IsEmpty(d[j])
    requires forall k :: 0 <= k < |d| && !IsEmpty(d[k]) ==> d[k].slot <= d[j].slot
    ensures LastOpenFlashSlot(d) == d[j].slot + 1
    ensures GameSlots(d[j].sizeB) >= 2 ==> d[j].slot < LastOpenFlashSlot(d) < d[j].slot + GameSlots(d[j].sizeB)
  {
  }

  /**
   * get_available_flash_slots_at_end: how many of the slots 0..MAX_SLOTS-1
   * lie past LastOpenFlashSlot's frontier (the counting loop of the code).
   */
  function AvailableFlashSlotsAtEnd(d: seq<Game>): (r: nat)
    ensures r < MAX_SLOTS
    ensures r > 0 ==> r + LastOpenFlashSlot(d) == MAX_SLOTS
    ensures r == 0 ==> LastOpenFlashSlot(d) >= MAX_SLOTS
    ensures forall j :: 0 <= j < |d| && !IsEmpty(d[j]) ==> d[j].slot + r < MAX_SLOTS || r == 0
  {
    CountUpTo(LastOpenFlashSlot(d), MAX_SLOTS)
  }

  /** `while (h++ < limit) n++;` counts the values h, h+1, ... below limit. */
  function CountUpTo(h: nat, limit: nat): (n: nat)
    ensures n == if h < limit then limit - h else 0
    decreases limit - h
  {
    if h < limit then 1 + CountUpTo(h + 1, limit) else 0
  }

  /** The index of the last non-empty entry, 0 when there is none. */
  function HighestUsedIndex(d: seq<Game>): (h: nat)
    ensures |d| > 0 ==> h < |d|
    ensures forall j :: h < j < |d| ==> IsEmpty(d[j])
    ensures h == 0 || (h < |d| && !IsEmpty(d[h]))
  {
    if d == [] then 0
    else if !IsEmpty(d[|d| - 1]) then |d| - 1
    else HighestUsedIndex(d[..|d| - 1])
  }

  /**
   * get_last_open_metadata_slot: -1 exactly when the last entry is in use;
   * otherwise one past the last non-empty entry (1 on an empty directory),
   * with every entry from there to the end empty. Only the entry after the
   * last used one is ever offered, never an interior hole.
   */
  function LastOpenMetadataSlot(d: seq<Game>): (r: int)
    requires |d| == METADATA_MAX_ENTRIES
    ensures r == -1 <==> !IsEmpty(d[METADATA_MAX_ENTRIES - 1])
    ensures r != -1 ==> 1 <= r < METADATA_MAX_ENTRIES
    ensures r != -1 ==> forall j :: r <= j < METADATA_MAX_ENTRIES ==> IsEmpty(d[j])
    ensures r > 1 ==> !IsEmpty(d[r - 1])
  {
    var h := HighestUsedIndex(d) + 1;
    if h < METADATA_MAX_ENTRIES then h else -1
  }

  /**
   * One copy of get_games: `++n`, doubling the buffer when `n` reaches its
   * end, then `games[n] = g`. Everything else in the buffer is kept.
   */
  method PutGame(games: seq<Game>, n: nat, g: Game) returns (grown: seq<Game>, n': nat)
    requires |games| > n
    ensures n' == n + 1 && |grown| > n' && |grown| >= |games|
    ensures grown[..n'] == games[..n'] && grown[n'] == g
    ensures grown[1..n' + 1] == games[1..n'] + [g]
    ensures forall k :: n' < k < |games| ==> grown[k] == games[k]
  {
    n' := n + 1;
    grown := games;
    if |grown| <= n' {
      grown := grown + seq(|grown|, _ => EmptyRecord);
    }
    grown := grown[n' := g];
    assert grown[1..n' + 1] == grown[1..n'] + [g];
  }

  /**
   * get_games: copies the non-empty records into the caller's buffer, growing
   * it by doubling (realloc keeps the old contents, new room reads as empty).
   * The counter is pre-incremented, so the records land at 1..n and index 0
   * is never written.
   */
  method GetGames(d: seq<Game>, games: seq<Game>) returns (grown: seq<Game>, n: nat)
    requires |d| == METADATA_MAX_ENTRIES
    requires |games| >= 1
    ensures n == |Listing(d)|
    ensures |grown| > n && |grown| >= |games|
    ensures grown[1..n + 1] == Listing(d)
    ensures grown[0] == games[0]
    ensures forall k :: n < k < |games| ==> grown[k] == games[k]
  {
    grown := games;
    n := 0;
    for i := 0 to METADATA_MAX_ENTRIES
      invariant |grown| > n && |grown| >= |games|
      invariant grown[1..n + 1] == Listing(d[..i])
      invariant grown[0] == games[0]
      invariant forall k :: n < k < |games| ==> grown[k] == games[k]
    {
      ListingStep(d, i);
      if !IsEmpty(d[i]) {
        grown, n := PutGame(grown, n, d[i]);
      }
    }
    assert d[..METADATA_MAX_ENTRIES] == d;
  }
}
