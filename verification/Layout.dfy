/**
 The shared region as bytes: a 64-byte header, slot_count slots of 48 bytes, and
 slot_count attribute pages.
 */
module Layout {
  import opened Base
  import opened Codec
  import opened InodeHash
  import opened XattrPage

  const HEADER_SIZE: nat := 64
  const SLOT_SIZE: nat := 48
  const MIN_SLOTS: u32 := 1024

  const SLOT_EMPTY: u32 := 0
  const SLOT_LIVE: u32 := 1
  const SLOT_TOMBSTONE: u32 := 2

  datatype Slot = Slot(occupied: u32, dev: u64, ino: u64, uid: u32, gid: u32, mode: u32, rdev: u64)

  datatype Field = Occupied | Dev | Ino | Uid | Gid | Mode | Rdev {
    /** Byte offset inside a slot, with 64-bit fields aligned to 8. */
    function Offset(): (o: nat)
      ensures o + Width() <= SLOT_SIZE && o % Width() == 0
    {
      match this
      case Occupied => 0
      case Dev => 8
      case Ino => 16
      case Uid => 24
      case Gid => 28
      case Mode => 32
      case Rdev => 40
    }

    function Width(): (w: nat)
      ensures w == 4 || w == 8
    {
      if Dev? || Ino? || Rdev? then 8 else 4
    }

    predicate Fits(v: nat) {
      if Width() == 8 then v < U64_LIMIT else v < U32_LIMIT
    }
  }

  /** The slot with one field replaced. */
  function With(s: Slot, f: Field, v: nat): Slot
    requires f.Fits(v)
  {
    match f
    case Occupied => s.(occupied := v)
    case Dev => s.(dev := v)
    case Ino => s.(ino := v)
    case Uid => s.(uid := v)
    case Gid => s.(gid := v)
    case Mode => s.(mode := v)
    case Rdev => s.(rdev := v)
  }

  /** The value of one field of a slot. */
  function Value(s: Slot, f: Field): (v: nat)
    ensures f.Fits(v)
  {
    match f
    case Occupied => s.occupied
    case Dev => s.dev
    case Ino => s.ino
    case Uid => s.uid
    case Gid => s.gid
    case Mode => s.mode
    case Rdev => s.rdev
  }

  // ----- Sizing -----

  /** The least power of two at or above x that is at least p, itself a power of two. */
  function PowerAtLeast(p: nat, x: nat): (r: nat)
    requires p > 0
    decreases x - p
  {
    if p >= x then p else PowerAtLeast(2 * p, x)
  }

  /** next_power_of_two on 32 bits: an unrepresentable result wraps to zero. */
  function NextPowerOfTwo(x: u32): u32 {
    var p := PowerAtLeast(1, x);
    if p < U32_LIMIT then p else 0
  }

  function SlotCountFor(requested: u32): u32 {
    var p := NextPowerOfTwo(requested);
    if p < MIN_SLOTS then MIN_SLOTS else p
  }

  ghost predicate IsSlotCount(n: nat) {
    exists k: nat :: 10 <= k <= 31 && n == Pow2(k)
  }

  /** Bytes the region needs, or None when the address space of the given size cannot hold it. */
  function CheckedLength(n: u32, usizeMax: nat): Option<nat> {
    var slots := SLOT_SIZE * n;
    var pages := PAGE_SIZE * n;
    if slots > usizeMax || pages > usizeMax || HEADER_SIZE + slots > usizeMax || HEADER_SIZE + slots + pages > usizeMax
    then None
    else Some(HEADER_SIZE + slots + pages)
  }

  function MapLength(n: nat): nat {
    HEADER_SIZE + SLOT_SIZE * n + PAGE_SIZE * n
  }

  function SlotOffset(i: nat): nat {
    HEADER_SIZE + SLOT_SIZE * i
  }

  function FieldOffset(i: nat, f: Field): nat {
    SlotOffset(i) + f.Offset()
  }

  function PageOffset(n: nat, i: nat): nat {
    HEADER_SIZE + SLOT_SIZE * n + PAGE_SIZE * i
  }

  lemma {:induction false} PowerAtLeastIs(j: nat, x: nat)
    requires j == 0 || Pow2(j - 1) < x
    ensures exists k: nat :: j <= k && PowerAtLeast(Pow2(j), x) == Pow2(k) && x <= Pow2(k) && (k == 0 || Pow2(k - 1) < x)
    decreases x - Pow2(j)
  {
    if Pow2(j) >= x {
      assert PowerAtLeast(Pow2(j), x) == Pow2(j);
    } else {
      PowerAtLeastIs(j + 1, x);
    }
  }

  lemma {:induction false} Pow2Grows(a: nat, b: nat)
    requires a <= b
    ensures Pow2(a) <= Pow2(b)
    decreases b - a
  {
    if a < b {
      Pow2Grows(a + 1, b);
    }
  }

  lemma Pow2Landmarks()
    ensures Pow2(10) == 1024 && Pow2(31) == 0x8000_0000 && Pow2(32) == U32_LIMIT
  {
    assert Pow2(5) == 32;
    Pow2Sum(5, 5);
    Pow2Sum(10, 10);
    Pow2Sum(20, 10);
    assert Pow2(31) == 2 * Pow2(30);
    assert Pow2(32) == 2 * Pow2(31);
  }

  /**
   The slot count is always a power of two from 1024 to 2^31. It covers the request, by less
   than a factor of two above 1024, exactly when the request is at most 2^31; a larger one
   wraps round to the minimum.
   */
  lemma SlotCounts(requested: u32)
    ensures IsSlotCount(SlotCountFor(requested))
    ensures requested <= SlotCountFor(requested) <==> requested <= 0x8000_0000
    ensures requested <= 0x8000_0000 ==> SlotCountFor(requested) == 1024 || SlotCountFor(requested) < 2 * requested
    ensures requested > 0x8000_0000 ==> SlotCountFor(requested) == 1024
  {
    Pow2Landmarks();
    PowerAtLeastIs(0, requested);
    var k: nat :| PowerAtLeast(1, requested) == Pow2(k) && requested <= Pow2(k) && (k == 0 || Pow2(k - 1) < requested);
    if k >= 32 {
      Pow2Grows(32, k);
      Pow2Grows(31, k - 1);
    } else {
      Pow2Grows(k, 31);
      if k <= 10 {
        Pow2Grows(k, 10);
      } else {
        Pow2Grows(10, k);
        assert Pow2(k) == 2 * Pow2(k - 1);
        if requested > 0x8000_0000 {
          assert false;
        }
      }
    }
  }

  /**
   When the checked length is accepted, no offset the program then computes without checks
   can overflow, slots are 8-aligned, and the header, every slot and every page are pairwise
   disjoint parts of the region.
   */
  lemma OffsetsFit(n: u32, usizeMax: nat, i: nat, j: nat)
    requires CheckedLength(n, usizeMax).Some? && i < n && j < n
    ensures CheckedLength(n, usizeMax).value == MapLength(n) == 64 + 48 * n + 4096 * n
    ensures SLOT_SIZE * i <= usizeMax && PAGE_SIZE * i <= usizeMax && SLOT_SIZE * n <= usizeMax
    ensures SlotOffset(i) + SLOT_SIZE <= PageOffset(n, 0) <= usizeMax && SlotOffset(i) % 8 == 0
    ensures HEADER_SIZE <= SlotOffset(i) && PageOffset(n, 0) <= PageOffset(n, j)
    ensures PageOffset(n, j) + PAGE_SIZE <= MapLength(n) <= usizeMax
    ensures i < j ==> SlotOffset(i) + SLOT_SIZE <= SlotOffset(j) && PageOffset(n, i) + PAGE_SIZE <= PageOffset(n, j)
  {
  }

  // ----- Reading and writing bytes -----

  /** Where each word and page of the region is, and how wide it is. */
  lemma RegionWords(n: nat, i: nat)
    ensures FieldOffset(i, Occupied) == 64 + 48 * i && Occupied.Width() == 4
    ensures FieldOffset(i, Dev) == 64 + 48 * i + 8 && Dev.Width() == 8
    ensures FieldOffset(i, Ino) == 64 + 48 * i + 16 && Ino.Width() == 8
    ensures FieldOffset(i, Uid) == 64 + 48 * i + 24 && Uid.Width() == 4
    ensures FieldOffset(i, Gid) == 64 + 48 * i + 28 && Gid.Width() == 4
    ensures FieldOffset(i, Mode) == 64 + 48 * i + 32 && Mode.Width() == 4
    ensures FieldOffset(i, Rdev) == 64 + 48 * i + 40 && Rdev.Width() == 8
    ensures PageOffset(n, i) == 64 + 48 * n + 4096 * i
    ensures SLOT_EMPTY == 0 && SLOT_LIVE == 1 && SLOT_TOMBSTONE == 2
  {
  }

  function Splice(mem: Bytes, off: nat, b: Bytes): (r: Bytes)
    requires off + |b| <= |mem|
    ensures |r| == |mem|
  {
    mem[..off] + b + mem[off + |b|..]
  }

  lemma SpliceSame(mem: Bytes, off: nat, b: Bytes)
    requires off + |b| <= |mem|
    ensures Splice(mem, off, b)[off..off + |b|] == b
  {
  }

  lemma SpliceApart(mem: Bytes, off: nat, b: Bytes, lo: nat, hi: nat)
    requires off + |b| <= |mem| && lo <= hi <= |mem|
    requires hi <= off || off + |b| <= lo
    ensures Splice(mem, off, b)[lo..hi] == mem[lo..hi]
  {
  }

  function FieldBytes(mem: Bytes, i: nat, f: Field): Bytes
    requires SlotOffset(i) + SLOT_SIZE <= |mem|
  {
    mem[FieldOffset(i, f)..FieldOffset(i, f) + f.Width()]
  }

  function SlotAt(mem: Bytes, i: nat): Slot
    requires SlotOffset(i) + SLOT_SIZE <= |mem|
  {
    Slot(U32Of(FieldBytes(mem, i, Occupied)), U64Of(FieldBytes(mem, i, Dev)), U64Of(FieldBytes(mem, i, Ino)),
         U32Of(FieldBytes(mem, i, Uid)), U32Of(FieldBytes(mem, i, Gid)), U32Of(FieldBytes(mem, i, Mode)),
         U64Of(FieldBytes(mem, i, Rdev)))
  }

  function PageAt(mem: Bytes, n: nat, i: nat): Page
    requires |mem| == MapLength(n) && i < n
  {
    mem[PageOffset(n, i)..PageOffset(n, i) + PAGE_SIZE]
  }

  function SlotsIn(mem: Bytes, n: nat): seq<Slot>
    requires |mem| == MapLength(n)
  {
    seq(n, i requires 0 <= i < n => SlotAt(mem, i))
  }

  function PagesIn(mem: Bytes, n: nat): seq<Page>
    requires |mem| == MapLength(n)
  {
    seq(n, i requires 0 <= i < n => PageAt(mem, n, i))
  }

  /** The region after one field of one slot is stored. */
  function StoreField(mem: Bytes, n: nat, i: nat, f: Field, v: nat): Bytes
    requires |mem| == MapLength(n) && i < n
  {
    Splice(mem, FieldOffset(i, f), LeBytes(v, f.Width()))
  }

  lemma FieldsApart(i: nat, f: Field, j: nat, g: Field)
    requires i != j || f != g
    ensures FieldOffset(i, f) + f.Width() <= FieldOffset(j, g)
         || FieldOffset(j, g) + g.Width() <= FieldOffset(i, f)
  {
  }

  lemma FieldInRegion(n: nat, i: nat, f: Field)
    requires i < n
    ensures FieldOffset(i, f) + f.Width() <= MapLength(n)
  {
  }

  lemma SameFieldAfterStore(mem: Bytes, n: nat, i: nat, f: Field, v: nat)
    requires |mem| == MapLength(n) && i < n && f.Fits(v)
    ensures FieldBytes(StoreField(mem, n, i, f, v), i, f) == LeBytes(v, f.Width())
  {
    FieldInRegion(n, i, f);
    SpliceSame(mem, FieldOffset(i, f), LeBytes(v, f.Width()));
  }

  lemma OtherFieldAfterStore(mem: Bytes, n: nat, i: nat, f: Field, v: nat, j: nat, g: Field)
    requires |mem| == MapLength(n) && i < n && j < n && f.Fits(v) && (i != j || f != g)
    ensures FieldBytes(StoreField(mem, n, i, f, v), j, g) == FieldBytes(mem, j, g)
  {
    FieldInRegion(n, i, f);
    FieldInRegion(n, j, g);
    FieldsApart(i, f, j, g);
    WordApart(mem, FieldOffset(i, f), f.Width(), v, FieldOffset(j, g), FieldOffset(j, g) + g.Width());
  }

  lemma WordApart(mem: Bytes, off: nat, w: nat, v: nat, lo: nat, hi: nat)
    requires off + w <= |mem| && lo <= hi <= |mem| && (hi <= off || off + w <= lo)
    ensures Splice(mem, off, LeBytes(v, w))[lo..hi] == mem[lo..hi]
  {
    SpliceApart(mem, off, LeBytes(v, w), lo, hi);
  }

  lemma FieldAfterStore(mem: Bytes, n: nat, i: nat, f: Field, v: nat, j: nat, g: Field)
    requires |mem| == MapLength(n) && i < n && j < n && f.Fits(v)
    ensures FieldBytes(StoreField(mem, n, i, f, v), j, g)
         == if i == j && f == g then LeBytes(v, f.Width()) else FieldBytes(mem, j, g)
  {
    if i == j && f == g {
      SameFieldAfterStore(mem, n, i, f, v);
    } else {
      OtherFieldAfterStore(mem, n, i, f, v, j, g);
    }
  }

  lemma SlotAfterStore(mem: Bytes, n: nat, i: nat, f: Field, v: nat, j: nat)
    requires |mem| == MapLength(n) && i < n && j < n && f.Fits(v)
    ensures SlotAt(StoreField(mem, n, i, f, v), j)
         == if i == j then With(SlotAt(mem, j), f, v) else SlotAt(mem, j)
  {
    Widths();
    LeRoundTrip(v, f.Width());
    FieldAfterStore(mem, n, i, f, v, j, Occupied);
    FieldAfterStore(mem, n, i, f, v, j, Dev);
    FieldAfterStore(mem, n, i, f, v, j, Ino);
    FieldAfterStore(mem, n, i, f, v, j, Uid);
    FieldAfterStore(mem, n, i, f, v, j, Gid);
    FieldAfterStore(mem, n, i, f, v, j, Mode);
    FieldAfterStore(mem, n, i, f, v, j, Rdev);
  }

  lemma PageAfterStoreField(mem: Bytes, n: nat, i: nat, f: Field, v: nat, j: nat)
    requires |mem| == MapLength(n) && i < n && j < n
    ensures PageAt(StoreField(mem, n, i, f, v), n, j) == PageAt(mem, n, j)
  {
    SpliceApart(mem, FieldOffset(i, f), LeBytes(v, f.Width()), PageOffset(n, j), PageOffset(n, j) + PAGE_SIZE);
  }

  lemma HeaderAfterStoreField(mem: Bytes, n: nat, i: nat, f: Field, v: nat)
    requires |mem| == MapLength(n) && i < n
    ensures StoreField(mem, n, i, f, v)[..HEADER_SIZE] == mem[..HEADER_SIZE]
  {
    SpliceApart(mem, FieldOffset(i, f), LeBytes(v, f.Width()), 0, HEADER_SIZE);
  }

  /** Storing a field changes that field of that slot and nothing else decoded from the region. */
  lemma StoreFieldFrame(mem: Bytes, n: nat, i: nat, f: Field, v: nat)
    requires |mem| == MapLength(n) && i < n && f.Fits(v)
    ensures SlotsIn(StoreField(mem, n, i, f, v), n) == SlotsIn(mem, n)[i := With(SlotAt(mem, i), f, v)]
    ensures PagesIn(StoreField(mem, n, i, f, v), n) == PagesIn(mem, n)
    ensures StoreField(mem, n, i, f, v)[..HEADER_SIZE] == mem[..HEADER_SIZE]
  {
    forall j | 0 <= j < n
      ensures SlotAt(StoreField(mem, n, i, f, v), j) == if i == j then With(SlotAt(mem, j), f, v) else SlotAt(mem, j)
    {
      SlotAfterStore(mem, n, i, f, v, j);
    }
    forall j | 0 <= j < n
      ensures PageAt(StoreField(mem, n, i, f, v), n, j) == PageAt(mem, n, j)
    {
      PageAfterStoreField(mem, n, i, f, v, j);
    }
    HeaderAfterStoreField(mem, n, i, f, v);
  }

  /** The region after one attribute page is replaced. */
  function StorePage(mem: Bytes, n: nat, i: nat, page: Page): Bytes
    requires |mem| == MapLength(n) && i < n
  {
    Splice(mem, PageOffset(n, i), page)
  }

  lemma PageAfterStorePage(mem: Bytes, n: nat, i: nat, page: Page, j: nat)
    requires |mem| == MapLength(n) && i < n && j < n
    ensures PageAt(StorePage(mem, n, i, page), n, j) == if i == j then page else PageAt(mem, n, j)
  {
    if i == j {
      SpliceSame(mem, PageOffset(n, i), page);
    } else {
      SpliceApart(mem, PageOffset(n, i), page, PageOffset(n, j), PageOffset(n, j) + PAGE_SIZE);
    }
  }

  /** Replacing a page changes that page and nothing else decoded from the region. */
  lemma StorePageFrame(mem: Bytes, n: nat, i: nat, page: Page)
    requires |mem| == MapLength(n) && i < n
    ensures SlotsIn(StorePage(mem, n, i, page), n) == SlotsIn(mem, n)
    ensures PagesIn(StorePage(mem, n, i, page), n) == PagesIn(mem, n)[i := page]
    ensures StorePage(mem, n, i, page)[..HEADER_SIZE] == mem[..HEADER_SIZE]
  {
    forall j | 0 <= j < n
      ensures SlotAt(StorePage(mem, n, i, page), j) == SlotAt(mem, j)
    {
      SlotUntouched(mem, PageOffset(n, i), page, j);
    }
    forall j | 0 <= j < n
      ensures PageAt(StorePage(mem, n, i, page), n, j) == if i == j then page else PageAt(mem, n, j)
    {
      PageAfterStorePage(mem, n, i, page, j);
    }
    SpliceApart(mem, PageOffset(n, i), page, 0, HEADER_SIZE);
  }

  lemma FieldUntouched(mem: Bytes, off: nat, b: Bytes, j: nat, f: Field)
    requires off + |b| <= |mem| && SlotOffset(j) + SLOT_SIZE <= |mem|
    requires SlotOffset(j) + SLOT_SIZE <= off || off + |b| <= SlotOffset(j)
    ensures FieldBytes(Splice(mem, off, b), j, f) == FieldBytes(mem, j, f)
  {
    var lo := FieldOffset(j, f);
    SpliceApart(mem, off, b, lo, lo + f.Width());
  }

  lemma SlotUntouched(mem: Bytes, off: nat, b: Bytes, j: nat)
    requires off + |b| <= |mem| && SlotOffset(j) + SLOT_SIZE <= |mem|
    requires SlotOffset(j) + SLOT_SIZE <= off || off + |b| <= SlotOffset(j)
    ensures SlotAt(Splice(mem, off, b), j) == SlotAt(mem, j)
  {
    FieldUntouched(mem, off, b, j, Occupied);
    FieldUntouched(mem, off, b, j, Dev);
    FieldUntouched(mem, off, b, j, Ino);
    FieldUntouched(mem, off, b, j, Uid);
    FieldUntouched(mem, off, b, j, Gid);
    FieldUntouched(mem, off, b, j, Mode);
    FieldUntouched(mem, off, b, j, Rdev);
  }
}
