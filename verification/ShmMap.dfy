/** The shared-memory inode table itself: one flat byte region, read and written in place. */
module ShmMap {
  import opened Base
  import opened Codec
  import opened XattrPage
  import opened InodeHash
  import opened Layout
  import opened Probing
  import opened State
  import opened InodeTable
  import opened TableLaws
  import opened TableRuns

  const SHM_MAGIC: u32 := 0x5044_5253
  const SHM_VERSION: u32 := 3

  lemma SpliceWithin(mem: Bytes, off: nat, len: nat, o: nat, b: Bytes)
    requires off + len <= |mem| && o + |b| <= len
    ensures Splice(mem, off + o, b) == Splice(mem, off, Splice(mem[off..off + len], o, b))
  {
    var part := mem[off..off + len];
    assert mem[..off + o] == mem[..off] + part[..o];
    assert mem[off + o + |b|..] == part[o + |b|..] + mem[off + len..];
  }

  lemma PageInRegion(n: nat, i: nat)
    requires i < n
    ensures PageOffset(n, i) + PAGE_SIZE <= MapLength(n)
  {
  }

  /** Replacing part of a page in the region replaces that part of the decoded page. */
  lemma SplicePage(mem: Bytes, n: nat, i: nat, o: nat, b: Bytes)
    requires |mem| == MapLength(n) && i < n && o + |b| <= PAGE_SIZE
    ensures PageOffset(n, i) + o + |b| <= |mem|
    ensures Splice(mem, PageOffset(n, i) + o, b) == StorePage(mem, n, i, Splice(PageAt(mem, n, i), o, b))
  {
    PageInRegion(n, i);
    SpliceWithin(mem, PageOffset(n, i), PAGE_SIZE, o, b);
  }

  /** The header words in use: magic, version, slot count and the current ids. */
  function Header(slotCount: u32, uid: u32, gid: u32): (b: Bytes)
    ensures |b| == 20
  {
    LeBytes(SHM_MAGIC, 4) + LeBytes(SHM_VERSION, 4) + LeBytes(slotCount, 4) + LeBytes(uid, 4) + LeBytes(gid, 4)
  }

  /** The header's words in place. */
  lemma HeaderWords(slotCount: u32, uid: u32, gid: u32)
    ensures
      var h := Header(slotCount, uid, gid);
      && h[..4] == LeBytes(0x5044_5253, 4) && h[4..8] == LeBytes(3, 4) && h[8..12] == LeBytes(slotCount, 4)
      && h[12..16] == LeBytes(uid, 4) && h[16..] == LeBytes(gid, 4)
  {
    FiveWords(LeBytes(SHM_MAGIC, 4), LeBytes(SHM_VERSION, 4), LeBytes(slotCount, 4), LeBytes(uid, 4), LeBytes(gid, 4));
  }

  lemma FiveWords(a: Bytes, b: Bytes, c: Bytes, d: Bytes, e: Bytes)
    requires |a| == |b| == |c| == |d| == |e| == 4
    ensures
      var h := a + b + c + d + e;
      h[..4] == a && h[4..8] == b && h[8..12] == c && h[12..16] == d && h[16..] == e
  {
  }

  lemma HeaderWritten(mem: Bytes, b: Bytes)
    requires |b| == 20 && |mem| >= HEADER_SIZE
    ensures Splice(mem, 0, b)[..HEADER_SIZE][..20] == b
  {
  }

  ghost predicate SpellsSlot(mem: Bytes, n: nat, i: nat, s: Slot)
    requires |mem| == MapLength(n) && i < n
  {
    SlotAt(mem, i) == s
  }

  ghost predicate SpellsPage(mem: Bytes, n: nat, i: nat, p: Page)
    requires |mem| == MapLength(n) && i < n
  {
    PageAt(mem, n, i) == p
  }

  /** The bytes of the region spell these slots and pages. */
  ghost predicate Spells(mem: Bytes, n: nat, slots: seq<Slot>, pages: seq<Page>)
    requires |mem| == MapLength(n)
  {
    && |slots| == n && |pages| == n
    && (forall i {:trigger SpellsSlot(mem, n, i, slots[i])} :: 0 <= i < n ==> SpellsSlot(mem, n, i, slots[i]))
    && (forall i {:trigger SpellsPage(mem, n, i, pages[i])} :: 0 <= i < n ==> SpellsPage(mem, n, i, pages[i]))
  }

  lemma SpellsWhatIsThere(mem: Bytes, n: nat)
    requires |mem| == MapLength(n)
    ensures Spells(mem, n, SlotsIn(mem, n), PagesIn(mem, n))
  {
  }

  lemma SpellsExactly(mem: Bytes, n: nat, slots: seq<Slot>, pages: seq<Page>)
    requires |mem| == MapLength(n)
    ensures Spells(mem, n, slots, pages) <==> slots == SlotsIn(mem, n) && pages == PagesIn(mem, n)
  {
    if Spells(mem, n, slots, pages) {
      forall i | 0 <= i < n
        ensures slots[i] == SlotAt(mem, i) && pages[i] == PageAt(mem, n, i)
      {
        assert SpellsSlot(mem, n, i, slots[i]) && SpellsPage(mem, n, i, pages[i]);
      }
    } else if slots == SlotsIn(mem, n) && pages == PagesIn(mem, n) {
      SpellsWhatIsThere(mem, n);
    }
  }

  lemma SpellsAfterStoreField(mem: Bytes, n: nat, slots: seq<Slot>, pages: seq<Page>, i: nat, f: Field, v: nat)
    requires |mem| == MapLength(n) && Spells(mem, n, slots, pages) && i < n && f.Fits(v)
    ensures Spells(StoreField(mem, n, i, f, v), n, slots[i := With(slots[i], f, v)], pages)
  {
    SpellsExactly(mem, n, slots, pages);
    StoreFieldFrame(mem, n, i, f, v);
    SpellsWhatIsThere(StoreField(mem, n, i, f, v), n);
  }

  lemma SpellsAfterStorePage(mem: Bytes, n: nat, slots: seq<Slot>, pages: seq<Page>, i: nat, page: Page)
    requires |mem| == MapLength(n) && Spells(mem, n, slots, pages) && i < n
    ensures Spells(StorePage(mem, n, i, page), n, slots, pages[i := page])
  {
    SpellsExactly(mem, n, slots, pages);
    StorePageFrame(mem, n, i, page);
    SpellsWhatIsThere(StorePage(mem, n, i, page), n);
  }

  lemma SliceOfAll(a: array<byte>, lo: nat, hi: nat)
    requires lo <= hi <= a.Length
    ensures a[lo..hi] == a[..][lo..hi]
  {
  }

  lemma ValueOfWord(mem: Bytes, n: nat, slots: seq<Slot>, pages: seq<Page>, i: nat, f: Field)
    requires |mem| == MapLength(n) && Spells(mem, n, slots, pages) && i < n
    ensures Value(slots[i], f) == if f.Width() == 4 then U32Of(FieldBytes(mem, i, f)) else U64Of(FieldBytes(mem, i, f))
  {
    assert SpellsSlot(mem, n, i, slots[i]);
  }

  class ShmInodeMap {
    const slotCount: u32
    const base: array<byte>
    const codec: Codec<Xattrs>

    /** The slots and pages that the bytes spell. */
    ghost var slots: seq<Slot>
    ghost var pages: seq<Page>

    /** The region has the size its slot count calls for, and spells the ghost slots and pages. */
    ghost predicate Valid()
      reads this, base
    {
      && slotCount > 0 && IsSlotCount(slotCount) && base.Length == MapLength(slotCount)
      && Spells(base[..], slotCount, slots, pages)
      && Faithful(codec)
      && Model().Shaped()
    }

    ghost function Model(): Table
      reads this
    {
      Table(BucketIn(if slotCount > 0 then slotCount else 1), codec, slots, pages)
    }

    ghost function HeaderBytes(): Bytes
      requires base.Length >= HEADER_SIZE
      reads base
    {
      base[..][..HEADER_SIZE]
    }

    // ----- Access to single words -----

    method Load(i: nat, f: Field) returns (v: nat)
      requires Valid() && i < slotCount
      ensures v == Value(slots[i], f) && f.Fits(v)
    {
      var off := FieldOffset(i, f);
      var word := base[off..off + f.Width()];
      SliceOfAll(base, off, off + f.Width());
      ValueOfWord(base[..], slotCount, slots, pages, i, f);
      v := if f.Width() == 4 then U32Of(word) else U64Of(word);
    }

    method CopyFrom(off: nat, b: Bytes)
      requires off + |b| <= base.Length
      modifies base
      ensures base[..] == Splice(old(base[..]), off, b)
    {
      forall k | 0 <= k < |b| {
        base[off + k] := b[k];
      }
    }

    method Store(i: nat, f: Field, v: nat)
      requires Valid() && i < slotCount && f.Fits(v)
      modifies base, this`slots
      ensures Valid()
      ensures slots == old(slots)[i := With(old(slots[i]), f, v)]
      ensures HeaderBytes() == old(HeaderBytes())
    {
      ghost var mem := base[..];
      ghost var after := StoreField(mem, slotCount, i, f, v);
      ghost var slots' := slots[i := With(slots[i], f, v)];
      HeaderAfterStoreField(mem, slotCount, i, f, v);
      SpellsAfterStoreField(mem, slotCount, slots, pages, i, f, v);
      CopyFrom(FieldOffset(i, f), LeBytes(v, f.Width()));
      slots := slots';
      assert base[..] == after;
    }

    method SetPagePart(i: nat, o: nat, b: Bytes)
      requires Valid() && i < slotCount && o + |b| <= PAGE_SIZE
      modifies base, this`pages
      ensures Valid()
      ensures pages == old(pages)[i := Splice(old(pages[i]), o, b)]
    {
      ghost var mem := base[..];
      SplicePage(mem, slotCount, i, o, b);
      assert SpellsPage(mem, slotCount, i, pages[i]);
      ghost var page := Splice(pages[i], o, b);
      ghost var after := StorePage(mem, slotCount, i, page);
      SpellsAfterStorePage(mem, slotCount, slots, pages, i, page);
      CopyFrom(PageOffset(slotCount, i) + o, b);
      assert base[..] == after;
      pages := pages[i := page];
    }

    // ----- Attribute pages -----

    method WriteXattrs(i: nat, x: Xattrs)
      requires Valid() && i < slotCount
      modifies base, this`pages
      ensures Valid() && pages == old(pages)[i := WritePage(codec, old(pages[i]), x)]
    {
      ghost var page := pages[i];
      assert Splice(page, 0, LeBytes(0, 4)) == LeBytes(0, 4) + page[4..];
      if x == map[] {
        SetPagePart(i, 0, LeBytes(0, 4));
        return;
      }
      match codec.encode(x)
      case Some(b) =>
        if |b| <= ROOM {
          SetPagePart(i, 0, LeBytes(|b|, 4));
          SetPagePart(i, 4, b);
          assert Splice(Splice(page, 0, LeBytes(|b|, 4)), 4, b) == WritePage(codec, page, x);
        } else {
          SetPagePart(i, 0, LeBytes(0, 4));
        }
      case None =>
        SetPagePart(i, 0, LeBytes(0, 4));
    }

    method ReadXattrs(i: nat) returns (x: Xattrs)
      requires Valid() && i < slotCount
      ensures x == ReadPage(codec, pages[i])
    {
      var off := PageOffset(slotCount, i);
      var page := base[off..off + PAGE_SIZE];
      assert SpellsPage(base[..], slotCount, i, pages[i]);
      assert page == pages[i];
      var len := U32Of(page[..4]);
      if len == 0 || len > ROOM {
        return map[];
      }
      match codec.decode(page[4..4 + len])
      case Some(pair) => x := pair.0;
      case None => x := map[];
    }

    // ----- Creation -----

    constructor Init(requested: u32, uid: u32, gid: u32, codec: Codec<Xattrs>)
      requires Faithful(codec)
      ensures fresh(base) && this.codec == codec && slotCount == SlotCountFor(requested)
      ensures Valid() && Fresh(Model())
      ensures HeaderBytes()[..20] == Header(slotCount, uid, gid)
    {
      this.slotCount := SlotCountFor(requested);
      this.codec := codec;
      this.base := new byte[MapLength(SlotCountFor(requested))](_ => 0);
      new;
      SlotCounts(requested);
      InitHeader(uid, gid);
    }

    /** Write the header words, then mark every slot empty. */
    method InitHeader(uid: u32, gid: u32)
      requires slotCount > 0 && IsSlotCount(slotCount) && base.Length == MapLength(slotCount) && Faithful(codec)
      modifies base, this`slots, this`pages
      ensures Valid() && Fresh(Model())
      ensures HeaderBytes()[..20] == Header(slotCount, uid, gid)
    {
      HeaderWritten(base[..], Header(slotCount, uid, gid));
      CopyFrom(0, Header(slotCount, uid, gid));
      ghost var mem := base[..];
      slots, pages := SlotsIn(mem, slotCount), PagesIn(mem, slotCount);
      SpellsWhatIsThere(mem, slotCount);
      BucketsFit(slotCount);
      assert HeaderBytes()[..20] == Header(slotCount, uid, gid);
      ClearSlots();
    }

    method ClearSlots()
      requires Valid()
      modifies base, this`slots
      ensures Valid() && Fresh(Model()) && HeaderBytes() == old(HeaderBytes())
    {
      for i := 0 to slotCount
        invariant Valid()
        invariant forall j :: 0 <= j < i ==> slots[j].occupied == SLOT_EMPTY
        invariant HeaderBytes() == old(HeaderBytes())
      {
        Store(i, Occupied, SLOT_EMPTY);
      }
    }

    /** Creation fails exactly when the region's length cannot be represented. */
    static method Create(requested: u32, usizeMax: nat, uid: u32, gid: u32, codec: Codec<Xattrs>)
      returns (r: Option<ShmInodeMap>)
      requires Faithful(codec)
      ensures r.None? <==> MapLength(SlotCountFor(requested)) > usizeMax
      ensures r.Some? ==>
                && fresh(r.value) && fresh(r.value.base) && r.value.Valid() && Fresh(r.value.Model())
                && r.value.slotCount == SlotCountFor(requested) && r.value.codec == codec
                && r.value.HeaderBytes()[..20] == Header(r.value.slotCount, uid, gid)
    {
      if CheckedLength(SlotCountFor(requested), usizeMax).None? {
        return None;
      }
      var map_ := new ShmInodeMap.Init(requested, uid, gid, codec);
      r := Some(map_);
    }

    // ----- Operations -----

    method FindSlot(key: InodeKey) returns (r: Probe)
      requires Valid()
      ensures r == Model().Search(key)
    {
      r := WalkFrom(Hash(slotCount, key.0, key.1), key);
    }

    /** The probe loop: at most slotCount steps, remembering the first tombstone on the way. */
    method WalkFrom(h: nat, key: InodeKey) returns (r: Probe)
      requires Valid() && h < slotCount
      ensures r == ProbeFrom(Cells(slots), key, h, 0, None)
    {
      var idx := h;
      var reuse: Option<nat> := None;
      for d := 0 to slotCount
        invariant idx == At(slotCount, h, d)
        invariant reuse.Some? ==> reuse.value < slotCount
        invariant ProbeFrom(Cells(slots), key, h, 0, None) == ProbeFrom(Cells(slots), key, h, d, reuse)
      {
        assert Cells(slots)[idx] == CellOf(slots[idx]);
        var occupied := Load(idx, Occupied);
        if occupied == SLOT_EMPTY {
          return Vacant(reuse.GetOr(idx));
        } else if occupied == SLOT_LIVE {
          var dev := Load(idx, Dev);
          var ino := Load(idx, Ino);
          if dev == key.0 && ino == key.1 {
            return Found(idx);
          }
        } else if occupied == SLOT_TOMBSTONE && reuse.None? {
          reuse := Some(idx);
        }
        NextSlot(slotCount, h, d);
        idx := (idx + 1) % slotCount;
      }
      r := Full;
    }

    method GetInode(key: InodeKey) returns (r: Option<FakeInode>)
      requires Valid()
      ensures Entry(r) == AnswerTable(Model(), Op.Get(key))
    {
      var p := FindSlot(key);
      if !p.Found? {
        return None;
      }
      var i := p.index;
      var uid := Load(i, Uid);
      var gid := Load(i, Gid);
      var mode := Load(i, Mode);
      var rdev := Load(i, Rdev);
      var inode := NewInode(uid, gid);
      if mode != 0 {
        inode := inode.(mode := Some(mode));
      }
      if rdev != 0 {
        inode := inode.(rdev := Some(rdev));
      }
      var x := ReadXattrs(i);
      r := Some(inode.(xattrs := x));
    }

    /** Overwrite the metadata fields of slot i. */
    method Describe(i: nat, uid: u32, gid: u32, mode: u32, rdev: u64)
      requires Valid() && i < slotCount
      modifies base, this`slots
      ensures Valid() && slots == old(slots)[i := old(slots[i]).(uid := uid, gid := gid, mode := mode, rdev := rdev)]
    {
      Store(i, Uid, uid);
      Store(i, Gid, gid);
      Store(i, Mode, mode);
      Store(i, Rdev, rdev);
    }

    /** Fill slot i for a key and only then publish it as live. */
    method Publish(i: nat, key: InodeKey, uid: u32, gid: u32, mode: u32, rdev: u64)
      requires Valid() && i < slotCount
      modifies base, this`slots
      ensures Valid() && slots == old(slots)[i := Slot(SLOT_LIVE, key.0, key.1, uid, gid, mode, rdev)]
    {
      Store(i, Dev, key.0);
      Store(i, Ino, key.1);
      Describe(i, uid, gid, mode, rdev);
      Store(i, Occupied, SLOT_LIVE);
    }

    method UpsertChown(key: InodeKey, uid: u32, gid: u32, defaultUid: u32, defaultGid: u32)
      requires Valid()
      modifies base, this`slots, this`pages
      ensures Valid() && Model() == ApplyTable(old(Model()), Chown(key, uid, gid, defaultUid, defaultGid))
    {
      var p := FindSlot(key);
      match p
      case Found(i) =>
        ghost var s := slots[i];
        if uid != ID_UNCHANGED {
          Store(i, Uid, uid);
        }
        if gid != ID_UNCHANGED {
          Store(i, Gid, gid);
        }
        assert slots == old(slots)[i := s.(uid := Chosen(uid, s.uid), gid := Chosen(gid, s.gid))];
      case Vacant(i) =>
        var newUid := if uid == ID_UNCHANGED then defaultUid else uid;
        var newGid := if gid == ID_UNCHANGED then defaultGid else gid;
        WriteXattrs(i, map[]);
        Publish(i, key, newUid, newGid, 0, 0);
      case Full =>
    }

    method UpsertInode(key: InodeKey, inode: FakeInode)
      requires Valid()
      modifies base, this`slots, this`pages
      ensures Valid() && Model() == ApplyTable(old(Model()), Put(key, inode))
    {
      var p := FindSlot(key);
      match p
      case Found(i) =>
        FoundMatches(Cells(slots), Model().home, key, i);
        Describe(i, inode.uid, inode.gid, inode.mode.GetOr(0), inode.rdev.GetOr(0));
        WriteXattrs(i, inode.xattrs);
      case Vacant(i) =>
        WriteXattrs(i, inode.xattrs);
        Publish(i, key, inode.uid, inode.gid, inode.mode.GetOr(0), inode.rdev.GetOr(0));
      case Full =>
    }

    method RemoveInode(key: InodeKey) returns (found: bool)
      requires Valid()
      modifies base, this`slots, this`pages
      ensures Valid() && Model() == ApplyTable(old(Model()), Op.Remove(key))
      ensures Removed(found) == AnswerTable(old(Model()), Op.Remove(key))
    {
      var p := FindSlot(key);
      if !p.Found? {
        return false;
      }
      WriteXattrs(p.index, map[]);
      Store(p.index, Occupied, SLOT_TOMBSTONE);
      found := true;
    }

    /**
     One request of any kind. A table that agreed with a plain map before still does, the map
     having skipped the request exactly when it is dropped.
     */
    method Serve(op: Op, ghost m: InodeMap) returns (reply: Reply)
      requires Valid() && Model().Valid() && Agrees(Model(), m)
      modifies base, this`slots, this`pages
      ensures Valid() && Model().Valid()
      ensures Model() == ApplyTable(old(Model()), op)
      ensures reply == AnswerMap(m, NormaliseOp(codec, op))
      ensures Agrees(Model(), if old(Dropped(Model(), op)) then m else ApplyMap(m, NormaliseOp(codec, op)))
    {
      StepSimulates(Model(), m, op);
      match op
      case Get(key) =>
        var r := GetInode(key);
        reply := Entry(r);
      case Chown(key, uid, gid, du, dg) =>
        UpsertChown(key, uid, gid, du, dg);
        reply := Done;
      case Put(key, inode) =>
        UpsertInode(key, inode);
        reply := Done;
      case Remove(key) =>
        var found := RemoveInode(key);
        reply := Removed(found);
    }
  }
}
