/**
 * The serial upload of a game (upl_stdin_read and upl_flush_buf): a header
 * of 128 name bytes and a little-endian 32-bit length, then the body. At
 * the end of the header a slot and a directory entry are reserved, the slot
 * is erased, and the engine script is streamed into it ahead of the body,
 * 256 bytes per page from the slot's second page on; the first page gets
 * the magic once the last byte is in.
 *
 * The serial line is a sequence of `Option<byte>`: `None` is a read that
 * timed out, and the end of the sequence counts as one too.
 */
module Upload {
  import opened Geometry
  import opened Records
  import opened Scans
  import opened Consolidation
  import opened Store

  /** The 128 name bytes of the header. */
  const NAME_LEN: nat := 128
  /** sizeof(uint32_t): the length field of the header. */
  const LEN_BYTES: nat := 4
  /** Bytes of a complete header. */
  const HEADER_LEN: nat := NAME_LEN + LEN_BYTES
  const UINT32_RANGE: nat := 0x1_0000_0000

  /** The weight of byte k of a little-endian integer, for the bytes of a uint32 and one past them. */
  function ByteWeight(k: nat): (w: nat)
    requires k <= LEN_BYTES
    ensures w >= 1
  {
    match k
    case 0 => 1
    case 1 => 0x100
    case 2 => 0x1_0000
    case 3 => 0x100_0000
    case _ => 0x1_0000_0000
  }

  /**
   * The value of bytes stored one by one into a zeroed little-endian
   * integer: byte k carries weight 256^k, so k bytes hold a value below
   * 256^k.
   */
  function LittleEndian(b: seq<byte>): (n: nat)
    requires |b| <= LEN_BYTES
    ensures n < ByteWeight(|b|)
  {
    if b == [] then 0
    else
      var k := |b| - 1;
      var low := LittleEndian(b[..k]);
      assert low + b[k] * ByteWeight(k) < ByteWeight(k + 1) by {
        assert low + b[k] * ByteWeight(k) < (b[k] + 1) * ByteWeight(k);
        assert (b[k] + 1) * ByteWeight(k) <= 256 * ByteWeight(k);
      }
      low + b[k] * ByteWeight(k)
  }

  /** The `k` bytes a sender writes for the length `n`, least significant first. */
  function LittleEndianBytes(n: nat, k: nat): (b: seq<byte>)
    requires k <= LEN_BYTES && n < ByteWeight(k)
    ensures |b| == k
  {
    if k == 0 then []
    else
      var w := ByteWeight(k - 1);
      assert n / w < 256 by {
        if k == 1 {} else if k == 2 {} else if k == 3 {} else {}
      }
      LittleEndianBytes(n % w, k - 1) + [n / w]
  }

  /** The header's length field decodes to the length the sender encoded. */
  lemma {:induction false} LittleEndianRoundTrip(n: nat, k: nat)
    requires k <= LEN_BYTES && n < ByteWeight(k)
    ensures LittleEndian(LittleEndianBytes(n, k)) == n
  {
    if k > 0 {
      var w := ByteWeight(k - 1);
      var b := LittleEndianBytes(n, k);
      assert b[..k - 1] == LittleEndianBytes(n % w, k - 1);
      LittleEndianRoundTrip(n % w, k - 1);
      DivModWeight(n, k - 1);
      assert LittleEndian(b) == n % w + (n / w) * w;
    }
  }

  /** Division by a byte weight. */
  lemma DivModWeight(n: nat, k: nat)
    requires k < LEN_BYTES
    ensures n == n % ByteWeight(k) + (n / ByteWeight(k)) * ByteWeight(k)
    ensures n % ByteWeight(k) < ByteWeight(k)
  {
    if k == 0 {} else if k == 1 {} else if k == 2 {} else {}
  }

  /** And every byte string is the encoding of its value: the field has no redundancy. */
  lemma {:induction false} LittleEndianBytesOfValue(b: seq<byte>)
    requires |b| <= LEN_BYTES
    ensures LittleEndian(b) < ByteWeight(|b|)
    ensures LittleEndianBytes(LittleEndian(b), |b|) == b
  {
    var k := |b|;
    if k > 0 {
      var w := ByteWeight(k - 1);
      var rest := LittleEndian(b[..k - 1]);
      var n := LittleEndian(b);
      assert n == rest + b[k - 1] * w;
      assert n / w == b[k - 1] && n % w == rest by {
        if k == 1 {} else if k == 2 {} else if k == 3 {} else {}
      }
      LittleEndianBytesOfValue(b[..k - 1]);
      assert b == b[..k - 1] + [b[k - 1]];
    }
  }

  /** The length of the C string in a name buffer: the bytes before the first NUL. */
  function NameLength(raw: seq<byte>): (z: nat)
    ensures z <= |raw|
    ensures forall k :: 0 <= k < z ==> raw[k] != 0
    ensures z < |raw| ==> raw[z] == 0
  {
    if raw == [] || raw[0] == 0 then 0 else 1 + NameLength(raw[1..])
  }

  /**
   * The record's name after strcpy from the header's name buffer: the
   * bytes before the first NUL, the rest of the field zero.
   */
  function CName(raw: seq<byte>): (n: seq<byte>)
    requires |raw| == NAME_LEN
    ensures |n| == NAME_LEN
    ensures forall k :: 0 <= k < NameLength(raw) ==> n[k] == raw[k]
    ensures forall k :: NameLength(raw) <= k < NAME_LEN ==> n[k] == 0
  {
    raw[..NameLength(raw)] + Zeros(NAME_LEN - NameLength(raw))
  }

  /** Copying a copied name again changes nothing; a NUL-terminated name is kept as is. */
  lemma CNameIdempotent(raw: seq<byte>)
    requires |raw| == NAME_LEN
    ensures NameLength(CName(raw)) == NameLength(raw)
    ensures CName(CName(raw)) == CName(raw)
    ensures (forall k :: NameLength(raw) <= k < NAME_LEN ==> raw[k] == 0) ==> CName(raw) == raw
  {
    var n := CName(raw);
    var z := NameLength(raw);
    NameLengthOf(n, z);
  }

  lemma {:induction false} NameLengthOf(raw: seq<byte>, z: nat)
    requires z <= |raw| && (forall k :: 0 <= k < z ==> raw[k] != 0) && (z < |raw| ==> raw[z] == 0)
    ensures NameLength(raw) == z
  {
    if z > 0 {
      NameLengthOf(raw[1..], z - 1);
    }
  }

  /** Page q of a stream: its bytes q*256 .. q*256+255, zero past the end of the stream. */
  function Chunk(s: seq<byte>, q: nat): (p: Page)
    ensures |p| == FLASH_PAGE_SIZE
  {
    seq(FLASH_PAGE_SIZE, o requires 0 <= o < FLASH_PAGE_SIZE =>
      if q * FLASH_PAGE_SIZE + o < |s| then s[q * FLASH_PAGE_SIZE + o] else 0)
  }

  /** Byte i of a stream is byte i % 256 of page i / 256. */
  lemma ChunkReadBack(s: seq<byte>)
    ensures forall i :: 0 <= i < |s| ==> Chunk(s, i / FLASH_PAGE_SIZE)[i % FLASH_PAGE_SIZE] == s[i]
  {
  }

  /** Pages past the end of a stream are blank. */
  lemma ChunkBlank(s: seq<byte>, q: nat)
    requires q * FLASH_PAGE_SIZE >= |s|
    ensures Chunk(s, q) == ErasedPage
  {
  }

  /** A full page of a stream is not changed by what follows it. */
  lemma ChunkStable(s: seq<byte>, t: seq<byte>, q: nat)
    requires (q + 1) * FLASH_PAGE_SIZE <= |s|
    ensures Chunk(s + t, q) == Chunk(s, q)
  {
  }

  /** Appending one byte sets its place in the last (partial) page. */
  lemma ChunkAppend(s: seq<byte>, c: byte)
    ensures Chunk(s + [c], |s| / FLASH_PAGE_SIZE) == Chunk(s, |s| / FLASH_PAGE_SIZE)[|s| % FLASH_PAGE_SIZE := c]
  {
  }

  /** The uint32 `len - 1` of the completion test. */
  function Target(len: nat): (t: nat)
    requires len < UINT32_RANGE
    ensures t < UINT32_RANGE
    ensures len >= 1 ==> t + 1 == len
    ensures len == 0 ==> t == UINT32_RANGE - 1
  {
    (len + UINT32_RANGE - 1) % UINT32_RANGE
  }

  /** char_len: the declared length plus sizeof(engine_script), in uint32. */
  function CharLen(declared: nat, scriptSize: nat): (c: nat)
    ensures c < UINT32_RANGE
    ensures declared + scriptSize < UINT32_RANGE ==> c == declared + scriptSize
  {
    (declared + scriptSize) % UINT32_RANGE
  }

  /** sector_len of an upload, with the uint32 wrap-around of page_len and sector_len. */
  function EraseBytes(charLen: nat): (e: nat)
    ensures e < UINT32_RANGE && e % FLASH_SECTOR_SIZE == 0
  {
    var pageLen := ((charLen / FLASH_PAGE_SIZE + 2) * FLASH_PAGE_SIZE) % UINT32_RANGE;
    ((pageLen / FLASH_SECTOR_SIZE + 1) * FLASH_SECTOR_SIZE) % UINT32_RANGE
  }

  /**
   * Below the wrap-around the erase length is sector_len as designed, so the
   * erase covers the magic page and every page of the stream; near 2^32 it
   * can wrap to 0 and erase nothing.
   */
  lemma EraseBytesNoWrap(charLen: nat)
    requires charLen + 2 * FLASH_SECTOR_SIZE <= UINT32_RANGE
    ensures EraseBytes(charLen) == SectorLen(charLen)
    ensures EraseBytes(charLen) / FLASH_PAGE_SIZE > charLen / FLASH_PAGE_SIZE + 1
  {
    var pageLen := (charLen / FLASH_PAGE_SIZE + 2) * FLASH_PAGE_SIZE;
    assert charLen / FLASH_PAGE_SIZE * FLASH_PAGE_SIZE <= charLen;
    assert pageLen < UINT32_RANGE && pageLen == PageLen(charLen);
    var sectorLen := (pageLen / FLASH_SECTOR_SIZE + 1) * FLASH_SECTOR_SIZE;
    assert pageLen / FLASH_SECTOR_SIZE * FLASH_SECTOR_SIZE <= pageLen;
    assert sectorLen < UINT32_RANGE && sectorLen == SectorLen(charLen);
    UploadEraseLengths(charLen);
  }

  /**
   * The wrap exhibited: for char_len = 2^32 - 4096, page_len is
   * 2^32 - 3584 and sector_len is 2^32, which the uint32 holds as 0, so the
   * erase of line 337 erases nothing.
   */
  lemma EraseBytesWraps()
    ensures EraseBytes(UINT32_RANGE - FLASH_SECTOR_SIZE) == 0
  {
  }

  /**
   * Body bytes after which the upload completes: the stream holds the
   * script without its NUL, and the test `len_i == len - 1` fires after
   * body byte n when script bytes + n equals the uint32 `char_len - 1`.
   * Without wrap-around that is the declared length. When `char_len` wraps,
   * n is negative: `len_i` is already past `len - 1` once the script is
   * streamed, so the upload never completes.
   */
  function BodyBytes(declared: nat, scriptSize: nat): (n: int)
    requires scriptSize >= 1
    ensures declared + scriptSize <= UINT32_RANGE ==> n == declared
    ensures declared < UINT32_RANGE && declared + scriptSize > UINT32_RANGE ==> n < 0
    ensures declared < UINT32_RANGE && scriptSize <= UINT32_RANGE && declared + scriptSize > UINT32_RANGE ==>
              n == declared - UINT32_RANGE
  {
    Target(CharLen(declared, scriptSize)) - (scriptSize - 1)
  }

  /** Where an upload is: reading the header, or reading the body. */
  datatype UplProg = Header | Body

  /** Received(input, lo, hi): items lo..hi-1 arrived, none timed out. */
  predicate Received(input: seq<Option<byte>>, lo: nat, hi: nat) {
    lo <= hi <= |input| && forall k :: lo <= k < hi ==> input[k].Some?
  }

  /** The bytes of items lo..hi-1. */
  function Values(input: seq<Option<byte>>, lo: nat, hi: nat): (v: seq<byte>)
    requires Received(input, lo, hi)
    ensures |v| == hi - lo && forall k :: 0 <= k < hi - lo ==> v[k] == input[lo + k].value
  {
    seq(hi - lo, k requires 0 <= k < hi - lo => input[lo + k].value)
  }

  /** The length the header declares. */
  function Declared(input: seq<Option<byte>>): (n: nat)
    requires Received(input, 0, HEADER_LEN)
    ensures n < UINT32_RANGE
  {
    LittleEndian(Values(input, NAME_LEN, HEADER_LEN))
  }

  /** The bytes streamed into the slot once `idx` items are read: the script without its NUL, then the body. */
  function Stream(script: seq<byte>, input: seq<Option<byte>>, idx: nat): seq<byte>
    requires |script| >= 1 && HEADER_LEN <= idx && Received(input, 0, idx)
  {
    script[..|script| - 1] + Values(input, HEADER_LEN, idx)
  }

  /** The pages of an upload in progress: page k of the stream at base + 1 + k, written once full. */
  function StreamLayout(erased: Pages, base: nat, s: seq<byte>, k: nat): Page {
    if base < k <= base + |s| / FLASH_PAGE_SIZE then Chunk(s, k - base - 1) else PageAt(erased, k)
  }

  /** The pages of a completed upload: the magic, then every page of the stream including the last partial one. */
  function InstalledLayout(erased: Pages, base: nat, s: seq<byte>, k: nat): Page {
    if k == base then MagicPage
    else if base < k <= base + 1 + |s| / FLASH_PAGE_SIZE then Chunk(s, k - base - 1)
    else PageAt(erased, k)
  }

  /** The page count of a stream grows by one exactly when a byte completes a page. */
  lemma PageStep(n: nat)
    ensures (n + 1) % FLASH_PAGE_SIZE == 0 ==> (n + 1) / FLASH_PAGE_SIZE == n / FLASH_PAGE_SIZE + 1
    ensures (n + 1) % FLASH_PAGE_SIZE != 0 ==> (n + 1) / FLASH_PAGE_SIZE == n / FLASH_PAGE_SIZE
  {
  }

  /** A byte that does not complete a page leaves the programmed pages as they are. */
  lemma StreamLayoutKeep(erased: Pages, base: nat, s: seq<byte>, c: byte)
    requires (|s| + 1) % FLASH_PAGE_SIZE != 0
    ensures forall k: nat :: StreamLayout(erased, base, s + [c], k) == StreamLayout(erased, base, s, k)
  {
    PageStep(|s|);
    forall k: nat
      ensures StreamLayout(erased, base, s + [c], k) == StreamLayout(erased, base, s, k)
    {
      if base < k <= base + |s| / FLASH_PAGE_SIZE {
        ChunkStable(s, [c], k - base - 1);
      }
    }
  }

  /** A byte that completes a page adds that page, programmed at the next page of the slot. */
  lemma StreamLayoutFlush(m: Pages, erased: Pages, base: nat, s: seq<byte>, c: byte, m': Pages)
    requires (|s| + 1) % FLASH_PAGE_SIZE == 0
    requires forall k: nat :: PageAt(m, k) == StreamLayout(erased, base, s, k)
    requires m' == m[base + 1 + |s| / FLASH_PAGE_SIZE := Chunk(s + [c], |s| / FLASH_PAGE_SIZE)]
    ensures forall k: nat :: PageAt(m', k) == StreamLayout(erased, base, s + [c], k)
  {
    PageStep(|s|);
    var top := base + 1 + |s| / FLASH_PAGE_SIZE;
    forall k: nat
      ensures PageAt(m', k) == StreamLayout(erased, base, s + [c], k)
    {
      if k != top {
        assert PageAt(m', k) == PageAt(m, k);
        if base < k <= base + |s| / FLASH_PAGE_SIZE {
          ChunkStable(s, [c], k - base - 1);
        }
      }
    }
  }

  /**
   * The stream `s` is in flight over the erased pages `erased` of a slot at
   * page `base`: `lenI` counts it, the buffer holds its last partial page,
   * and every full page has been programmed in order from the slot's second
   * page.
   */
  ghost predicate StreamState(lenI: nat, page: nat, buffer: seq<byte>, m: Pages, base: nat, s: seq<byte>, erased: Pages) {
    && lenI == |s|
    && page == 1 + |s| / FLASH_PAGE_SIZE
    && buffer == Chunk(s, |s| / FLASH_PAGE_SIZE)
    && forall k: nat :: PageAt(m, k) == StreamLayout(erased, base, s, k)
  }

  lemma StreamStart(m: Pages, base: nat)
    ensures StreamState(0, 1, Zeros(FLASH_PAGE_SIZE), m, base, [], m)
  {
    assert Chunk([], 0) == Zeros(FLASH_PAGE_SIZE);
  }

  /** A byte that does not fill the buffer goes into it. */
  lemma StreamStepKeep(lenI: nat, page: nat, buffer: seq<byte>, m: Pages, base: nat, s: seq<byte>, erased: Pages, c: byte)
    requires StreamState(lenI, page, buffer, m, base, s, erased)
    requires (lenI + 1) % FLASH_PAGE_SIZE != 0
    ensures StreamState(lenI + 1, page, buffer[lenI % FLASH_PAGE_SIZE := c], m, base, s + [c], erased)
  {
    ChunkAppend(s, c);
    PageStep(|s|);
    StreamLayoutKeep(erased, base, s, c);
  }

  /** A byte that fills the buffer goes into it, and the buffer is programmed and cleared. */
  lemma StreamStepFlush(lenI: nat, page: nat, buffer: seq<byte>, m: Pages, base: nat, s: seq<byte>, erased: Pages, c: byte,
                        buffer': seq<byte>, m': Pages)
    requires StreamState(lenI, page, buffer, m, base, s, erased)
    requires (lenI + 1) % FLASH_PAGE_SIZE == 0
    requires buffer' == ErasedPage && m' == m[base + page := buffer[lenI % FLASH_PAGE_SIZE := c]]
    ensures StreamState(lenI + 1, page + 1, buffer', m', base, s + [c], erased)
  {
    var s' := s + [c];
    var q := |s| / FLASH_PAGE_SIZE;
    PageStep(|s|);
    assert page + 1 == 1 + |s'| / FLASH_PAGE_SIZE;
    ChunkAppend(s, c);
    assert buffer[lenI % FLASH_PAGE_SIZE := c] == Chunk(s', q);
    assert base + page == base + 1 + q;
    StreamLayoutFlush(m, erased, base, s, c, m');
    ChunkBlank(s', |s'| / FLASH_PAGE_SIZE);
  }

  /**
   * A completed upload reads back: its slot carries the magic and, from the
   * slot's second page on, holds the stream byte for byte.
   */
  lemma InstalledReadBack(m: Pages, erased: Pages, slot: nat, s: seq<byte>)
    requires forall k: nat :: PageAt(m, k) == InstalledLayout(erased, SlotBase(slot), s, k)
    ensures HasMagic(m, slot)
    ensures forall i :: 0 <= i < |s| ==>
              var p := PageAt(m, SlotBase(slot) + 1 + i / FLASH_PAGE_SIZE);
              |p| == FLASH_PAGE_SIZE && p[i % FLASH_PAGE_SIZE] == s[i]
  {
    MagicPageIsMagic();
    ChunkReadBack(s);
    assert PageAt(m, SlotBase(slot)) == MagicPage;
  }

  /** Completing an upload: the last partial page, then the magic at the slot's first page. */
  lemma InstallStep(m: Pages, erased: Pages, base: nat, s: seq<byte>, m': Pages)
    requires forall k: nat :: PageAt(m, k) == StreamLayout(erased, base, s, k)
    requires m' == m[base + 1 + |s| / FLASH_PAGE_SIZE := Chunk(s, |s| / FLASH_PAGE_SIZE)][base := MagicPage]
    ensures forall k: nat :: PageAt(m', k) == InstalledLayout(erased, base, s, k)
  {
    var top := base + 1 + |s| / FLASH_PAGE_SIZE;
    forall k: nat
      ensures PageAt(m', k) == InstalledLayout(erased, base, s, k)
    {
      if k == base {
        assert PageAt(m', k) == MagicPage;
      } else if k == top {
        assert PageAt(m', k) == Chunk(s, |s| / FLASH_PAGE_SIZE);
      } else {
        assert PageAt(m', k) == PageAt(m, k);
        assert PageAt(m, k) == StreamLayout(erased, base, s, k);
      }
    }
  }

  /** While an upload streams, its slot's first page stays erased, so the slot shows no magic. */
  lemma NoMagicWhileStreaming(m: Pages, reserved: Pages, slot: nat, count: nat, s: seq<byte>)
    requires count >= 1
    requires forall k: nat :: PageAt(m, k) == StreamLayout(EraseRange(reserved, SlotBase(slot), count), SlotBase(slot), s, k)
    ensures !HasMagic(m, slot)
  {
    MagicPageIsMagic();
    assert PageAt(m, SlotBase(slot)) == ErasedPage;
  }

  lemma NoMagicWhileStreamingIf(m: Pages, reserved: Pages, slot: nat, count: nat, s: seq<byte>)
    requires forall k: nat :: PageAt(m, k) == StreamLayout(EraseRange(reserved, SlotBase(slot), count), SlotBase(slot), s, k)
    ensures count >= 1 ==> !HasMagic(m, slot)
  {
    if count >= 1 {
      NoMagicWhileStreaming(m, reserved, slot, count, s);
    }
  }

  /** The record of an upload whose header is `input[..HEADER_LEN]`, placed at `slot`. */
  function UploadRecord(input: seq<Option<byte>>, slot: byte): (g: Game)
    requires Received(input, 0, HEADER_LEN)
    ensures g.sizeB == Declared(input) && g.slot == slot && g.location == Location_FLASH
    ensures g.name == CName(Values(input, 0, NAME_LEN))
  {
    Game(CName(Values(input, 0, NAME_LEN)), Location_FLASH, slot, Declared(input))
  }

  /** The header arrived in full and the store had room for the declared length. */
  ghost predicate SpaceFor(input: seq<Option<byte>>, d0: seq<Game>, p0: Pages)
    requires |d0| == DIR_CELLS
  {
    Received(input, 0, HEADER_LEN) && AvailableGameSlots(d0[..METADATA_MAX_ENTRIES], p0) >= GameSlots(Declared(input))
  }

  /** The body arrived up to the byte that completes the upload. */
  ghost predicate Completes(input: seq<Option<byte>>, script: seq<byte>)
    requires |script| >= 1
  {
    && Received(input, 0, HEADER_LEN)
    && BodyBytes(Declared(input), |script|) >= 1
    && Received(input, HEADER_LEN, HEADER_LEN + BodyBytes(Declared(input), |script|))
  }

  /** Nothing in the store differs from the snapshot. */
  ghost predicate Untouched(store: FlashStore, p0: Pages, d0: seq<Game>, s0: nat, v0: Game)
    reads store, store.dir
  {
    store.pages == p0 && store.dir[..] == d0 && store.slot == s0 && store.versionCell == v0
  }

  /**
   * The reservation of an upload, against the flash `p0`, directory `d0`
   * and version page `v0` it started from. The slot choice left flash
   * `reserved` and directory `relocated` (SlotChoice: unchanged when the
   * tail had room, consolidated otherwise); the slot is the one after the
   * highest recorded in `relocated`, truncated to 8 bits; and the record
   * was entered into `relocated` (EnterDir), over the version page only
   * when no entry was offered, which the empty past-the-end cell rules out.
   */
  ghost predicate Placed(store: FlashStore, input: seq<Option<byte>>, d0: seq<Game>, p0: Pages, v0: Game,
                         reserved: Pages, relocated: seq<Game>)
    requires |d0| == DIR_CELLS
    reads store, store.dir
  {
    && store.slot < 256 && Received(input, 0, HEADER_LEN)
    && |relocated| == DIR_CELLS && store.dir.Length == DIR_CELLS
    && (reserved, relocated) == SlotChoice(p0, d0, GameSlots(Declared(input)))
    && store.slot == LastOpenFlashSlot(relocated[..METADATA_MAX_ENTRIES]) % 256
    && store.dir[..] == EnterDir(relocated, UploadRecord(input, store.slot))
    && store.versionCell == (if OfferedEntry(relocated) == -1 then UploadRecord(input, store.slot) else v0)
    && (IsEmpty(d0[PAST_END]) ==> OfferedEntry(relocated) != -1)
  }

  /**
   * A placed upload: a consolidation, if one happened, kept what
   * FlashConsolidated promises; the record went in after the listing the
   * slot choice left (Entered), and it sits in the directory whenever the
   * past-the-end cell was empty.
   */
  lemma PlacedRecord(store: FlashStore, input: seq<Option<byte>>, d0: seq<Game>, p0: Pages, v0: Game,
                     reserved: Pages, relocated: seq<Game>)
    requires |d0| == DIR_CELLS
    requires Placed(store, input, d0, p0, v0, reserved, relocated)
    ensures AvailableFlashSlotsAtEnd(d0[..METADATA_MAX_ENTRIES]) >= GameSlots(Declared(input)) ==>
              reserved == p0 && relocated == d0
    ensures AvailableFlashSlotsAtEnd(d0[..METADATA_MAX_ENTRIES]) < GameSlots(Declared(input)) ==>
              FlashConsolidated(reserved, relocated, p0, d0)
    ensures Entered(store.dir[..], store.versionCell, relocated, UploadRecord(input, store.slot))
    ensures IsEmpty(d0[PAST_END]) ==>
              exists mi :: 0 <= mi < METADATA_MAX_ENTRIES && store.dir[mi] == UploadRecord(input, store.slot)
  {
    var g := UploadRecord(input, store.slot);
    if AvailableFlashSlotsAtEnd(d0[..METADATA_MAX_ENTRIES]) < GameSlots(Declared(input)) {
      FlashConsolidation(p0, d0);
    }
    EnteredDirectory(relocated, g, store.versionCell);
    if IsEmpty(d0[PAST_END]) {
      assert store.dir[OfferedEntry(relocated)] == g;
    }
  }

  /**
   * The slot region after a complete upload: the slot that `reserved` held
   * erased for the declared length, the received bytes from its second page
   * on and the magic page in front.
   */
  ghost predicate Installed(m: Pages, slot: nat, reserved: Pages, script: seq<byte>, input: seq<Option<byte>>)
    requires |script| >= 1 && Completes(input, script)
  {
    var len := CharLen(Declared(input), |script|);
    forall k: nat :: PageAt(m, k) ==
      InstalledLayout(EraseRange(reserved, SlotBase(slot), EraseBytes(len) / FLASH_PAGE_SIZE),
                      SlotBase(slot),
                      Stream(script, input, HEADER_LEN + BodyBytes(Declared(input), |script|)), k)
  }

  /** upl_state: the progress of the one upload in flight. */
  class UplState {
    var prog: UplProg
    var len: nat
    var lenI: nat
    const buf: array<byte>
    var page: nat
    const name: array<byte>
    var nameI: nat

    ghost predicate Valid()
      reads this
    {
      buf.Length == FLASH_PAGE_SIZE && name.Length == NAME_LEN && buf != name
    }

    /** The all-zero state of `upl_state = {0}` and of memset(&upl_state, 0, ...). */
    ghost predicate IsZero()
      reads this, buf, name
    {
      prog == Header && len == 0 && lenI == 0 && page == 0 && nameI == 0 &&
      buf[..] == Zeros(FLASH_PAGE_SIZE) && name[..] == Zeros(NAME_LEN)
    }

    constructor ()
      ensures Valid() && IsZero() && fresh(buf) && fresh(name)
    {
      prog := Header;
      len := 0;
      lenI := 0;
      buf := new byte[FLASH_PAGE_SIZE](_ => 0);
      page := 0;
      name := new byte[NAME_LEN](_ => 0);
      nameI := 0;
    }

    /** memset(&upl_state, 0, sizeof(upl_state)). */
    method Reset()
      requires Valid()
      modifies this, buf, name
      ensures Valid() && IsZero()
    {
      prog := Header;
      len := 0;
      lenI := 0;
      page := 0;
      nameI := 0;
      forall k | 0 <= k < FLASH_PAGE_SIZE {
        buf[k] := 0;
      }
      forall k | 0 <= k < NAME_LEN {
        name[k] := 0;
      }
    }

    /** upl_flush_buf: programs the buffer at page `page` of the active slot, advances `page` and clears the buffer. */
    method FlushBuf(store: FlashStore)
      requires Valid()
      modifies this`page, buf, store`pages
      ensures store.pages == old(store.pages)[SlotBase(store.slot) + old(page) := old(buf[..])]
      ensures page == old(page) + 1 && buf[..] == ErasedPage
    {
      store.Program(SlotBase(store.slot) + page, buf[..]);
      page := page + 1;
      forall k | 0 <= k < FLASH_PAGE_SIZE {
        buf[k] := 0;
      }
    }

    /** The stream `s` is in flight over the erased pages `erased` of the active slot. */
    ghost predicate Streamed(store: FlashStore, s: seq<byte>, erased: Pages)
      reads this, buf, store
    {
      StreamState(lenI, page, buf[..], store.pages, SlotBase(store.slot), s, erased)
    }

    /** One byte of the stream: into the buffer, which is flushed when it fills (lines 341-345, 355-360). */
    method PutByte(store: FlashStore, c: byte, ghost s: seq<byte>, ghost erased: Pages)
      requires Valid() && Streamed(store, s, erased)
      modifies this`lenI, this`page, buf, store`pages
      ensures Streamed(store, s + [c], erased)
    {
      ghost var buffer := buf[..];
      ghost var m := store.pages;
      ghost var n := lenI;
      buf[lenI % FLASH_PAGE_SIZE] := c;
      lenI := lenI + 1;
      assert buf[..] == buffer[n % FLASH_PAGE_SIZE := c];
      if lenI % FLASH_PAGE_SIZE == 0 {
        ghost var p := page;
        FlushBuf(store);
        StreamStepFlush(n, p, buffer, m, SlotBase(store.slot), s, erased, c, buf[..], store.pages);
      } else {
        StreamStepKeep(n, page, buffer, m, SlotBase(store.slot), s, erased, c);
      }
    }

    /** The engine script, without its NUL, streamed ahead of the body (lines 340-346). */
    method StreamScript(store: FlashStore, script: seq<byte>, ghost erased: Pages)
      requires Valid() && |script| >= 1 && Streamed(store, [], erased)
      modifies this`lenI, this`page, buf, store`pages
      ensures Streamed(store, script[..|script| - 1], erased)
    {
      for i := 0 to |script| - 1
        invariant Streamed(store, script[..i], erased)
      {
        PutByte(store, script[i], script[..i], erased);
        assert script[..i] + [script[i]] == script[..i + 1];
      }
    }

    /**
     * The end of the header (lines 289-348): switch to the body, reserve a
     * slot and an entry for the declared length (giving up when there is no
     * room), add sizeof(engine_script) to the length, erase the slot from its
     * first page for sector_len bytes, and stream the script.
     */
    method BeginBody(store: FlashStore, script: seq<byte>)
      returns (ok: bool, ghost reserved: Pages, ghost relocated: seq<Game>, ghost erased: Pages)
      requires Valid() && store.Valid() && |script| >= 1
      requires len < UINT32_RANGE && buf[..] == ErasedPage
      modifies this`prog, this`len, this`lenI, this`page, buf
      modifies store`pages, store`slot, store`versionCell, store.dir
      ensures Valid() && store.Valid() && prog == Body && |relocated| == DIR_CELLS
      ensures ok <==> AvailableGameSlots(old(store.dir[..METADATA_MAX_ENTRIES]), old(store.pages)) >= GameSlots(old(len))
      ensures !ok ==> store.pages == old(store.pages) && store.dir[..] == old(store.dir[..]) &&
                      store.slot == old(store.slot) && store.versionCell == old(store.versionCell)
      ensures ok ==> len == CharLen(old(len), |script|)
      ensures ok ==> erased == EraseRange(reserved, SlotBase(store.slot), EraseBytes(len) / FLASH_PAGE_SIZE)
      ensures ok ==> Streamed(store, script[..|script| - 1], erased)
      ensures !ok ==> reserved == old(store.pages) && relocated == old(store.dir[..])
      ensures ok ==> (reserved, relocated) == SlotChoice(old(store.pages), old(store.dir[..]), GameSlots(old(len)))
      ensures ok ==> store.slot == LastOpenFlashSlot(relocated[..METADATA_MAX_ENTRIES]) % 256
      ensures ok ==> store.dir[..] == EnterDir(relocated, Game(CName(name[..]), Location_FLASH, store.slot, old(len)))
      ensures ok ==> store.versionCell == if OfferedEntry(relocated) == -1 then Game(CName(name[..]), Location_FLASH, store.slot, old(len))
                                          else old(store.versionCell)
      ensures ok && IsEmpty(old(store.dir[PAST_END])) ==> OfferedEntry(relocated) != -1
    {
      prog := Body;
      lenI := 0;
      page := 1;
      var game := CName(name[..]);
      var mi;
      ok, mi, reserved, relocated := store.Reserve(game, len);
      erased := store.pages;
      if !ok {
        return;
      }
      // The directory and the version page as the reservation left them.
      ghost var entered, version := store.dir[..], store.versionCell;
      len := CharLen(len, |script|);
      store.Erase(SlotBase(store.slot), EraseBytes(len) / FLASH_PAGE_SIZE);
      erased := store.pages;
      StreamStart(erased, SlotBase(store.slot));
      StreamScript(store, script, erased);
      assert store.dir[..] == entered && store.versionCell == version;
    }

    /** The first `idx` header bytes have been read: name bytes first, then the length bytes. */
    ghost predicate HeaderRead(input: seq<Option<byte>>, idx: nat)
      reads this, buf, name
    {
      && Received(input, 0, idx) && idx < HEADER_LEN
      && prog == Header && page == 0 && buf[..] == ErasedPage
      && (idx <= NAME_LEN ==>
            nameI == idx && lenI == 0 && len == 0 && name[..] == Values(input, 0, idx) + Zeros(NAME_LEN - idx))
      && (idx > NAME_LEN ==>
            nameI == NAME_LEN && name[..] == Values(input, 0, NAME_LEN) &&
            lenI == idx - NAME_LEN && len == LittleEndian(Values(input, NAME_LEN, idx)))
    }

    /**
     * The header and `idx - HEADER_LEN` body bytes have been read: the
     * length is char_len, the slot was erased into `erased`, and the script
     * and the body so far are in flight; the upload has not completed yet.
     */
    ghost predicate BodyRead(store: FlashStore, script: seq<byte>, input: seq<Option<byte>>, idx: nat,
                             reserved: Pages, erased: Pages)
      reads this, buf, store
    {
      && |script| >= 1 && HEADER_LEN <= idx && Received(input, 0, idx)
      && prog == Body
      && len == CharLen(Declared(input), |script|)
      && erased == EraseRange(reserved, SlotBase(store.slot), EraseBytes(len) / FLASH_PAGE_SIZE)
      && Streamed(store, Stream(script, input, idx), erased)
      && (BodyBytes(Declared(input), |script|) < 1 || idx - HEADER_LEN < BodyBytes(Declared(input), |script|))
    }

    /**
     * One header byte (lines 280-349): a name byte while the name is short
     * of 128 bytes, otherwise a length byte; after the fourth length byte
     * the body begins, or the upload stops for lack of room.
     */
    method HeaderByte(store: FlashStore, script: seq<byte>, input: seq<Option<byte>>, idx: nat)
      returns (stop: bool, ghost reserved: Pages, ghost relocated: seq<Game>, ghost erased: Pages)
      requires Valid() && store.Valid() && |script| >= 1
      requires idx < |input| && input[idx].Some? && HeaderRead(input, idx)
      modifies this`prog, this`len, this`lenI, this`page, this`nameI, buf, name
      modifies store`pages, store`slot, store`versionCell, store.dir
      ensures Valid() && store.Valid() && Received(input, 0, idx + 1)
      ensures idx + 1 < HEADER_LEN ==> !stop && HeaderRead(input, idx + 1)
      ensures idx + 1 < HEADER_LEN || stop ==>
                Untouched(store, old(store.pages), old(store.dir[..]), old(store.slot), old(store.versionCell))
      ensures idx + 1 == HEADER_LEN ==> (stop <==> !SpaceFor(input, old(store.dir[..]), old(store.pages)))
      ensures idx + 1 == HEADER_LEN && !stop ==>
                BodyRead(store, script, input, idx + 1, reserved, erased) &&
                Placed(store, input, old(store.dir[..]), old(store.pages), old(store.versionCell), reserved, relocated)
    {
      var c := input[idx].value;
      stop := false;
      reserved, relocated, erased := store.pages, store.dir[..], store.pages;
      if nameI < NAME_LEN {
        name[nameI] := c;
        nameI := nameI + 1;
        assert name[..] == Values(input, 0, idx + 1) + Zeros(NAME_LEN - (idx + 1));
      } else {
        ghost var v := Values(input, NAME_LEN, idx + 1);
        assert v[..|v| - 1] == Values(input, NAME_LEN, idx);
        len := len + c * ByteWeight(lenI);
        lenI := lenI + 1;
        assert len == LittleEndian(v);
        if lenI >= LEN_BYTES {
          assert idx + 1 == HEADER_LEN;
          assert name[..] == Values(input, 0, NAME_LEN);
          var ok;
          ok, reserved, relocated, erased := BeginBody(store, script);
          stop := !ok;
          if ok {
            assert Stream(script, input, idx + 1) == script[..|script| - 1];
          }
        }
      }
    }

    /**
     * One body byte (lines 355-376): into the stream; when the stream
     * reaches `len - 1` bytes the last page is flushed, the magic is
     * written at the slot's first page and the state is cleared.
     */
    method BodyByte(store: FlashStore, script: seq<byte>, input: seq<Option<byte>>, idx: nat,
                    ghost reserved: Pages, ghost erased: Pages)
      returns (done: bool)
      requires Valid() && store.Valid()
      requires idx < |input| && input[idx].Some? && BodyRead(store, script, input, idx, reserved, erased)
      modifies this, buf, name, store`pages
      ensures Valid() && Received(input, 0, idx + 1)
      ensures done <==> idx + 1 - HEADER_LEN == BodyBytes(Declared(input), |script|)
      ensures !done ==> BodyRead(store, script, input, idx + 1, reserved, erased)
      ensures done ==> IsZero() && Installed(store.pages, store.slot, reserved, script, input)
      ensures done ==> store.SaveRead() == Some(SlotBase(store.slot) + 1)
    {
      ghost var st := Stream(script, input, idx);
      ghost var st' := Stream(script, input, idx + 1);
      ghost var bodyBytes := BodyBytes(Declared(input), |script|);
      assert st' == st + [input[idx].value];
      PutByte(store, input[idx].value, st, erased);
      done := lenI == Target(len);
      assert lenI == |script| - 1 + (idx + 1 - HEADER_LEN);
      if done {
        assert idx + 1 == HEADER_LEN + bodyBytes;
        assert st' == Stream(script, input, HEADER_LEN + bodyBytes);
        Install(store, st', erased);
      }
    }

    /**
     * The completion of an upload (lines 363-371): the last partial page is
     * programmed, then the magic at the slot's first page, and the state is
     * zeroed. The slot then holds the whole stream behind the magic.
     */
    method Install(store: FlashStore, ghost s: seq<byte>, ghost erased: Pages)
      requires Valid() && Streamed(store, s, erased)
      modifies this, buf, name, store`pages
      ensures Valid() && IsZero()
      ensures forall k: nat :: PageAt(store.pages, k) == InstalledLayout(erased, SlotBase(store.slot), s, k)
      ensures store.SaveRead() == Some(SlotBase(store.slot) + 1)
    {
      ghost var m := store.pages;
      FlushBuf(store);
      store.Program(SlotBase(store.slot), MagicPage);
      InstallStep(m, erased, SlotBase(store.slot), s, store.pages);
      InstalledReadBack(store.pages, erased, store.slot, s);
      Reset();
    }

    /**
     * Where an upload stands after `idx` input bytes, against the store
     * (`p0`, `d0`, `s0`, `v0`) it started from: in the header with the store
     * untouched, or in the body with the room checked and the record placed.
     */
    ghost predicate Reading(store: FlashStore, script: seq<byte>, input: seq<Option<byte>>, idx: nat,
                            p0: Pages, d0: seq<Game>, s0: nat, v0: Game,
                            reserved: Pages, relocated: seq<Game>, erased: Pages)
      requires |d0| == DIR_CELLS
      reads this, buf, name, store, store.dir
    {
      && Valid() && store.Valid() && |script| >= 1 && idx <= |input| && Received(input, 0, idx)
      && (idx < HEADER_LEN ==> HeaderRead(input, idx) && Untouched(store, p0, d0, s0, v0))
      && (idx >= HEADER_LEN ==>
            BodyRead(store, script, input, idx, reserved, erased) &&
            SpaceFor(input, d0, p0) && Placed(store, input, d0, p0, v0, reserved, relocated))
    }

    /**
     * What upl_stdin_read promises when it returns `r`, against the store it
     * started from: 0 with nothing changed when the header was cut short or
     * there was no room; otherwise the record placed, and 1 exactly when the
     * body arrived in full, in which case the game is installed behind the
     * magic and the upload state is cleared; a body cut short leaves a slot
     * without the magic.
     */
    ghost predicate Finished(store: FlashStore, script: seq<byte>, input: seq<Option<byte>>, r: int,
                             p0: Pages, d0: seq<Game>, s0: nat, v0: Game, reserved: Pages, relocated: seq<Game>)
      requires |d0| == DIR_CELLS && |script| >= 1
      reads this, buf, name, store, store.dir
    {
      && (r == 0 || r == 1)
      && (!SpaceFor(input, d0, p0) ==> r == 0 && Untouched(store, p0, d0, s0, v0))
      && (r == 1 <==> SpaceFor(input, d0, p0) && Completes(input, script))
      && (SpaceFor(input, d0, p0) ==> Placed(store, input, d0, p0, v0, reserved, relocated))
      && (r == 1 ==>
            IsZero() && Installed(store.pages, store.slot, reserved, script, input) &&
            store.SaveRead() == Some(SlotBase(store.slot) + 1))
      && (r == 0 && SpaceFor(input, d0, p0) && EraseBytes(CharLen(Declared(input), |script|)) >= FLASH_PAGE_SIZE ==>
            !HasMagic(store.pages, store.slot))
    }

    /** A cleared upload state has read nothing of the header. */
    lemma StartReading(store: FlashStore, script: seq<byte>, input: seq<Option<byte>>,
                       p0: Pages, d0: seq<Game>, s0: nat, v0: Game)
      requires Valid() && IsZero() && store.Valid() && |script| >= 1
      requires Untouched(store, p0, d0, s0, v0)
      ensures |d0| == DIR_CELLS && Reading(store, script, input, 0, p0, d0, s0, v0, p0, d0, p0)
    {
      assert Values(input, 0, 0) + Zeros(NAME_LEN) == Zeros(NAME_LEN);
    }

    /** The input ends (a timeout) after `idx` bytes: upl_stdin_read returns 0. */
    lemma TimedOut(store: FlashStore, script: seq<byte>, input: seq<Option<byte>>, idx: nat,
                   p0: Pages, d0: seq<Game>, s0: nat, v0: Game,
                   reserved: Pages, relocated: seq<Game>, erased: Pages)
      requires |d0| == DIR_CELLS
      requires Reading(store, script, input, idx, p0, d0, s0, v0, reserved, relocated, erased)
      requires idx == |input| || input[idx].None?
      ensures Finished(store, script, input, 0, p0, d0, s0, v0, reserved, relocated)
    {
      if idx >= HEADER_LEN {
        NoMagicWhileStreamingIf(store.pages, reserved, store.slot, EraseBytes(len) / FLASH_PAGE_SIZE, Stream(script, input, idx));
      }
    }

    /** One pass of the reading loop of upl_stdin_read (lines 273-379). */
    method Step(store: FlashStore, script: seq<byte>, input: seq<Option<byte>>, idx: nat,
                ghost p0: Pages, ghost d0: seq<Game>, ghost s0: nat, ghost v0: Game,
                ghost reserved: Pages, ghost relocated: seq<Game>, ghost erased: Pages)
      returns (fin: bool, r: int, ghost reserved': Pages, ghost relocated': seq<Game>, ghost erased': Pages)
      requires |d0| == DIR_CELLS && idx < |input|
      requires Reading(store, script, input, idx, p0, d0, s0, v0, reserved, relocated, erased)
      modifies this, buf, name
      modifies store`pages, store`slot, store`versionCell, store.dir
      ensures Valid() && store.Valid()
      ensures fin ==> Finished(store, script, input, r, p0, d0, s0, v0, reserved', relocated')
      ensures !fin ==> Reading(store, script, input, idx + 1, p0, d0, s0, v0, reserved', relocated', erased')
    {
      reserved', relocated', erased' := reserved, relocated, erased;
      if input[idx].None? {
        TimedOut(store, script, input, idx, p0, d0, s0, v0, reserved, relocated, erased);
        return true, 0, reserved, relocated, erased;
      }
      match prog {
        case Header =>
          var stop;
          stop, reserved', relocated', erased' := HeaderByte(store, script, input, idx);
          if stop {
            return true, 0, reserved', relocated', erased';
          }
          return false, 0, reserved', relocated', erased';
        case Body =>
          var done := BodyByte(store, script, input, idx, reserved, erased);
          return done, if done then 1 else 0, reserved, relocated, erased;
      }
    }

    /**
     * upl_stdin_read: reads the header and the body of one upload from the
     * serial line. Returns 0 on a timeout and when there is no room; returns 1
     * once the body is complete, with the game installed in its slot, the
     * magic written and the upload state cleared. `reserved` is the flash as
     * the reservation left it, before the slot was erased, and `relocated`
     * the directory as the slot choice left it, before the record was entered.
     */
    method StdinRead(store: FlashStore, script: seq<byte>, input: seq<Option<byte>>)
      returns (r: int, ghost reserved: Pages, ghost relocated: seq<Game>)
      requires Valid() && store.Valid() && |script| >= 1
      modifies this, buf, name, store`pages, store`slot, store`versionCell, store.dir
      ensures Valid() && store.Valid()
      ensures Finished(store, script, input, r, old(store.pages), old(store.dir[..]), old(store.slot), old(store.versionCell),
                       reserved, relocated)
    {
      Reset();
      ghost var p0, d0, s0, v0 := store.pages, store.dir[..], store.slot, store.versionCell;
      reserved, relocated := store.pages, store.dir[..];
      ghost var erased := store.pages;
      StartReading(store, script, input, p0, d0, s0, v0);
      var idx := 0;
      var fin := false;
      r := 0;
      while !fin && idx < |input|
        invariant idx <= |input|
        invariant !fin ==> Reading(store, script, input, idx, p0, d0, s0, v0, reserved, relocated, erased)
        invariant fin ==> Valid() && store.Valid() && Finished(store, script, input, r, p0, d0, s0, v0, reserved, relocated)
        decreases |input| - idx
      {
        fin, r, reserved, relocated, erased := Step(store, script, input, idx, p0, d0, s0, v0, reserved, relocated, erased);
        idx := idx + 1;
      }
      if !fin {
        TimedOut(store, script, input, idx, p0, d0, s0, v0, reserved, relocated, erased);
        r := 0;
      }
    }
  }
}
