/**
 * The values stored in flash: directory records (`Game`), flash pages and
 * the SPRIG_MAGIC sentinel, with the "empty record" and "slot carries the
 * magic" tests the code uses.
 */
module Records {
  import opened Geometry

  type byte = x: int | 0 <= x < 256
  type uint32 = x: int | 0 <= x < 0x1_0000_0000

  datatype Option<T> = None | Some(value: T)

  /** Game_Location: flash is the only medium so far. */
  datatype Location = Location_FLASH

  /** One directory record: name (128 bytes), medium, first slot, payload size. */
  datatype Game = Game(name: seq<byte>, location: Location, slot: byte, sizeB: uint32)

  function Zeros(n: nat): (z: seq<byte>)
    ensures |z| == n && forall k :: 0 <= k < n ==> z[k] == 0
  {
    seq(n, _ => 0)
  }

  /** The all-zero record: what an erased directory entry reads as. */
  const EmptyRecord: Game := Game(Zeros(128), Location_FLASH, 0, 0)

  /** memcmp of an entry against `(Game){0}`. */
  predicate IsEmpty(g: Game) {
    g == EmptyRecord
  }

  /**
   * An entry is empty exactly when every byte of the record is zero, with
   * Location_FLASH the zero enumerator.
   */
  lemma EmptyIsAllZero(g: Game)
    ensures IsEmpty(g) <==>
              |g.name| == 128 && (forall k :: 0 <= k < 128 ==> g.name[k] == 0) &&
              g.location == Location_FLASH && g.slot == 0 && g.sizeB == 0
  {
    if |g.name| == 128 && (forall k :: 0 <= k < 128 ==> g.name[k] == 0) {
      assert g.name == Zeros(128);
    }
  }

  /** A flash page: 256 bytes once written. */
  type Page = seq<byte>

  /** What a page reads as after an erase (the code's all-zero assumption). */
  const ErasedPage: Page := Zeros(FLASH_PAGE_SIZE)

  /** SPRIG_MAGIC = { 1337, 42, 69, 420, 420, 1337 } as little-endian uint16 bytes. */
  const MagicWords: seq<nat> := [1337, 42, 69, 420, 420, 1337]

  function LittleEndian16(words: seq<nat>): (b: seq<byte>)
    requires forall k :: 0 <= k < |words| ==> words[k] < 0x1_0000
    ensures |b| == 2 * |words|
  {
    if words == [] then []
    else [words[0] % 256, words[0] / 256] + LittleEndian16(words[1..])
  }

  /** The 12 bytes of SPRIG_MAGIC as they lie in memory. */
  const MagicBytes: seq<byte> := LittleEndian16(MagicWords)

  /** sizeof(SPRIG_MAGIC). */
  const MAGIC_LEN: nat := 12

  /** The page programmed at a slot's base: the magic, then (in this model) zeros. */
  const MagicPage: Page := MagicBytes + Zeros(FLASH_PAGE_SIZE - MAGIC_LEN)

  /** memcmp of a page's first sizeof(SPRIG_MAGIC) bytes against SPRIG_MAGIC. */
  predicate IsMagicPage(p: Page) {
    |p| >= MAGIC_LEN && p[..MAGIC_LEN] == MagicBytes
  }

  /** Erasing sizeof(SPRIG_MAGIC) bytes at the start of a page. */
  function ClearMagic(p: Page): (q: Page)
    ensures |q| == |p| && !IsMagicPage(q)
    ensures forall k :: MAGIC_LEN <= k < |p| ==> q[k] == p[k]
  {
    assert MagicBytes[0] == 57;
    if |p| >= MAGIC_LEN then Zeros(MAGIC_LEN) + p[MAGIC_LEN..] else Zeros(|p|)
  }

  lemma MagicPageIsMagic()
    ensures |MagicPage| == FLASH_PAGE_SIZE && IsMagicPage(MagicPage)
    ensures !IsMagicPage(ErasedPage)
  {
    assert MagicPage[..MAGIC_LEN] == MagicBytes;
    assert MagicBytes[0] == 57;
  }

  /** The slot region: written pages by page index from FLASH_TARGET_START; absent = erased. */
  type Pages = map<nat, Page>

  function PageAt(m: Pages, k: nat): Page {
    if k in m then m[k] else ErasedPage
  }

  /** The first page of slot `s`. */
  function SlotBase(s: nat): nat {
    s * PAGES_PER_SLOT
  }

  /** A slot is occupied when its first bytes equal SPRIG_MAGIC. */
  predicate HasMagic(m: Pages, s: nat) {
    IsMagicPage(PageAt(m, SlotBase(s)))
  }

  /**
   * The magic test compares the slot's first 12 bytes with
   * 57 5 42 0 69 0 164 1 164 1 57 5, and only a programmed page can pass it.
   */
  lemma MagicTest(m: Pages, s: nat)
    ensures HasMagic(m, s) <==>
              |PageAt(m, SlotBase(s))| >= MAGIC_LEN &&
              PageAt(m, SlotBase(s))[..MAGIC_LEN] == [57, 5, 42, 0, 69, 0, 164, 1, 164, 1, 57, 5]
    ensures HasMagic(m, s) ==> SlotBase(s) in m
  {
    assert MagicBytes == [57, 5, 42, 0, 69, 0, 164, 1, 164, 1, 57, 5];
    assert ErasedPage[0] == 0;
  }

  /** flash_range_erase of `count` pages from page `from`: those pages read as erased. */
  function EraseRange(m: Pages, from: nat, count: nat): (r: Pages)
    ensures forall k: nat :: PageAt(r, k) == (if from <= k < from + count then ErasedPage else PageAt(m, k))
  {
    map k | k in m && !(from <= k < from + count) :: m[k]
  }

  /** The page indices lo..hi-1. */
  function Interval(lo: nat, hi: nat): (r: set<nat>)
    ensures forall k :: k in r <==> lo <= k < hi
    decreases hi - lo
  {
    if lo >= hi then {} else {lo} + Interval(lo + 1, hi)
  }

  /** flash_range_program of slot `dst + 1` over slot `dst` (SLOT_SIZE bytes). */
  function CopySlotDown(m: Pages, dst: nat): (r: Pages)
    ensures forall k: nat ::
              PageAt(r, k) == (if SlotBase(dst) <= k < SlotBase(dst + 1) then PageAt(m, k + PAGES_PER_SLOT) else PageAt(m, k))
  {
    var lo := SlotBase(dst);
    var hi := SlotBase(dst + 1);
    map k | k in m.Keys + Interval(lo, hi) ::
      if lo <= k < hi then PageAt(m, k + PAGES_PER_SLOT) else m[k]
  }

  /** Erasing the magic of slot `s`. */
  function ClearMagicAt(m: Pages, s: nat): (r: Pages)
    ensures !HasMagic(r, s)
    ensures forall k: nat :: k != SlotBase(s) ==> PageAt(r, k) == PageAt(m, k)
  {
    m[SlotBase(s) := ClearMagic(PageAt(m, SlotBase(s)))]
  }
}
