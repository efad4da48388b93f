/**
 The table against the plain map: each operation keeps the probe invariant and answers as the
 map does, where a written inode is first reduced to what a slot can hold and a new key is
 dropped exactly when its search finds the table full.
 */
module TableLaws {
  import opened Base
  import opened XattrPage
  import opened Layout
  import opened Codec
  import opened Probing
  import opened State
  import opened InodeTable

  function ApplyTable(t: Table, op: Op): Table
    requires t.Shaped()
  {
    match op
    case Get(_) => t
    case Chown(k, u, g, du, dg) => t.Chown(k, u, g, du, dg)
    case Put(k, inode) => t.Put(k, inode)
    case Remove(k) => t.Remove(k)
  }

  function AnswerTable(t: Table, op: Op): Reply
    requires t.Shaped()
  {
    match op
    case Get(k) => Entry(t.Get(k))
    case Remove(k) => Removed(t.Search(k).Found?)
    case _ => Done
  }

  /** What survives of an inode in a slot: zero mode and rdev read as absent, oversized attributes are gone. */
  function Normalise(c: Codec<Xattrs>, inode: FakeInode): FakeInode {
    inode.(mode := if inode.mode == Some(0) then None else inode.mode,
           rdev := if inode.rdev == Some(0) then None else inode.rdev,
           xattrs := Kept(c, inode.xattrs))
  }

  lemma SlotHolds(c: Codec<Xattrs>, inode: FakeInode)
    ensures
      Normalise(c, inode)
      == FakeInode(inode.uid, inode.gid,
                   if inode.mode == Some(0) then None else inode.mode,
                   if inode.rdev == Some(0) then None else inode.rdev,
                   if c.encode(inode.xattrs).Some? && |c.encode(inode.xattrs).value| <= 4092 then inode.xattrs else map[])
  {
  }

  function NormaliseOp(c: Codec<Xattrs>, op: Op): Op {
    if op.Put? then Put(op.key, Normalise(c, op.inode)) else op
  }

  /** The request would write a key but its search reports a full table. */
  predicate Dropped(t: Table, op: Op)
    requires t.Shaped()
  {
    (op.Chown? || op.Put?) && t.Search(op.key).Full?
  }

  ghost predicate Agrees(t: Table, m: InodeMap)
    requires t.Shaped()
  {
    forall k :: t.Get(k) == Lookup(m, k)
  }

  ghost predicate AllEmpty(slots: seq<Slot>) {
    forall i :: 0 <= i < |slots| ==> slots[i].occupied == SLOT_EMPTY
  }

  // ----- Reading -----

  lemma GetExact(t: Table, key: InodeKey, i: nat)
    requires t.Valid() && i < |t.slots| && CellOf(t.slots[i]) == Live(key)
    ensures t.Search(key) == Found(i) && t.Get(key) == Some(t.InodeAt(i))
  {
    FoundExact(Cells(t.slots), t.home, key, i);
  }

  lemma GetAbsent(t: Table, key: InodeKey)
    requires t.Valid() && forall i :: 0 <= i < |t.slots| ==> CellOf(t.slots[i]) != Live(key)
    ensures !t.Search(key).Found? && t.Get(key) == None
  {
    var r := t.Search(key);
    if r.Found? {
      FoundExact(Cells(t.slots), t.home, key, r.index);
    }
  }

  /** A key is found in at most one place, and if not found sits nowhere. */
  lemma SearchSound(t: Table, key: InodeKey)
    requires t.Valid()
    ensures t.Search(key).Found? ==> CellOf(t.slots[t.Search(key).index]) == Live(key)
    ensures !t.Search(key).Found? ==> forall i :: 0 <= i < |t.slots| ==> CellOf(t.slots[i]) != Live(key)
  {
    var r := t.Search(key);
    forall i: nat
      ensures r == Found(i) <==> i < |t.slots| && CellOf(t.slots[i]) == Live(key)
    {
      FoundExact(Cells(t.slots), t.home, key, i);
    }
  }

  // ----- Writing -----

  /** Whether one slot may be overwritten to hold the key without disturbing any other key. */
  ghost predicate FreeFor(t: Table, key: InodeKey, i: nat) {
    && i < |t.slots|
    && (CellOf(t.slots[i]) == Live(key)
        || (!CellOf(t.slots[i]).Live? && forall j :: 0 <= j < |t.slots| ==> CellOf(t.slots[j]) != Live(key)))
  }

  lemma GetElsewhere(t: Table, u: Table, k: InodeKey, i: nat)
    requires t.Valid() && u.Valid() && u.codec == t.codec && |u.slots| == |t.slots| && i < |t.slots|
    requires u.slots == t.slots[i := u.slots[i]] && u.pages == t.pages[i := u.pages[i]]
    requires CellOf(t.slots[i]) != Live(k) && CellOf(u.slots[i]) != Live(k)
    ensures u.Get(k) == t.Get(k)
  {
    SearchSound(t, k);
    if t.Search(k).Found? {
      var j := t.Search(k).index;
      assert u.slots[j] == t.slots[j] && u.pages[j] == t.pages[j];
      GetExact(u, k, j);
    } else {
      GetAbsent(u, k);
    }
  }

  /** After a slot is made to hold the key, the key reads as what was stored and others as before. */
  lemma GetAfterStore(t: Table, key: InodeKey, i: nat, s: Slot, x: Xattrs, k: InodeKey)
    requires t.Valid() && FreeFor(t, key, i) && CellOf(s) == Live(key) && t.Store(i, s, x).Valid()
    ensures t.Store(i, s, x).Get(k) == if k == key then Some(InodeOf(s, Kept(t.codec, x))) else t.Get(k)
  {
    var u := t.Store(i, s, x);
    if k == key {
      GetExact(u, key, i);
      PageRoundTrip(t.codec, t.pages[i], x);
    } else {
      GetElsewhere(t, u, k, i);
    }
  }

  lemma ApplyKeepsValid(t: Table, op: Op)
    requires t.Valid()
    ensures ApplyTable(t, op).Valid()
  {
    var cells := Cells(t.slots);
    var key := op.key;
    var r := t.Search(key);
    SearchSound(t, key);
    if r.Found? || r.Vacant? {
      var u := ApplyTable(t, op);
      CellsAfterStore(t.slots, r.index, u.slots[r.index]);
      assert cells[r.index := CellOf(t.slots[r.index])] == cells;
      if r.Vacant? {
        InsertKeepsInv(cells, t.home, key, r.index);
      } else {
        RemoveKeepsInv(cells, t.home, r.index);
      }
    }
  }

  lemma PutSimulates(t: Table, key: InodeKey, inode: FakeInode, k: InodeKey)
    requires t.Valid() && !t.Search(key).Full?
    ensures t.Put(key, inode).Valid()
    ensures t.Put(key, inode).Get(k) == if k == key then Some(Normalise(t.codec, inode)) else t.Get(k)
  {
    var i := t.Search(key).index;
    ApplyKeepsValid(t, Put(key, inode));
    SearchSound(t, key);
    if t.Search(key).Vacant? {
      InsertKeepsInv(Cells(t.slots), t.home, key, i);
    }
    var s := Slot(SLOT_LIVE, key.0, key.1, inode.uid, inode.gid, inode.mode.GetOr(0), inode.rdev.GetOr(0));
    GetAfterStore(t, key, i, s, inode.xattrs, k);
  }

  lemma ChownSimulates(t: Table, key: InodeKey, uid: u32, gid: u32, du: u32, dg: u32, k: InodeKey)
    requires t.Valid() && !t.Search(key).Full?
    ensures t.Chown(key, uid, gid, du, dg).Valid()
    ensures t.Chown(key, uid, gid, du, dg).Get(k)
         == if k == key then Some(WithOwner(t.Get(key).GetOr(NewInode(du, dg)), uid, gid)) else t.Get(k)
  {
    var u := t.Chown(key, uid, gid, du, dg);
    var i := t.Search(key).index;
    ApplyKeepsValid(t, Chown(key, uid, gid, du, dg));
    SearchSound(t, key);
    if t.Search(key).Found? {
      if k == key {
        GetExact(t, key, i);
        GetExact(u, key, i);
      } else {
        GetElsewhere(t, u, k, i);
      }
    } else {
      InsertKeepsInv(Cells(t.slots), t.home, key, i);
      var s := Slot(SLOT_LIVE, key.0, key.1, Chosen(uid, du), Chosen(gid, dg), 0, 0);
      GetAfterStore(t, key, i, s, map[], k);
      assert Kept(t.codec, map[]) == map[];
    }
  }

  lemma RemoveSimulates(t: Table, key: InodeKey, k: InodeKey)
    requires t.Valid()
    ensures t.Remove(key).Valid()
    ensures t.Remove(key).Get(k) == if k == key then None else t.Get(k)
  {
    var u := t.Remove(key);
    ApplyKeepsValid(t, Remove(key));
    SearchSound(t, key);
    if t.Search(key).Found? {
      var i := t.Search(key).index;
      if k == key {
        forall j | 0 <= j < |u.slots|
          ensures CellOf(u.slots[j]) != Live(key)
        {
          assert Cells(t.slots)[i] == Live(key) && Cells(t.slots)[j] == CellOf(t.slots[j]);
        }
        GetAbsent(u, key);
      } else {
        GetElsewhere(t, u, k, i);
      }
    }
  }

  /** A write is dropped exactly when the key has no entry and no slot is still empty; it changes nothing then. */
  lemma DroppedExactly(t: Table, op: Op)
    requires t.Valid()
    ensures Dropped(t, op) <==>
            (op.Chown? || op.Put?) && t.Get(op.key).None?
            && forall i :: 0 <= i < |t.slots| ==> t.slots[i].occupied != SLOT_EMPTY
    ensures Dropped(t, op) ==> ApplyTable(t, op) == t
  {
    var cells := Cells(t.slots);
    FullExact(cells, t.home, op.key);
    SearchSound(t, op.key);
    if HasEmpty(cells) {
      var i :| 0 <= i < |cells| && cells[i] == Empty;
      assert t.slots[i].occupied == SLOT_EMPTY;
    } else {
      forall i | 0 <= i < |t.slots|
        ensures t.slots[i].occupied != SLOT_EMPTY
      {
        assert cells[i] != Empty;
      }
    }
    if Holds(cells, op.key) {
      var i :| 0 <= i < |cells| && cells[i] == Live(op.key);
      GetExact(t, op.key, i);
    }
  }

  /** One request: same answer, and the table goes on agreeing with the map. */
  lemma StepSimulates(t: Table, m: InodeMap, op: Op)
    requires t.Valid() && Agrees(t, m)
    ensures ApplyTable(t, op).Valid()
    ensures AnswerTable(t, op) == AnswerMap(m, NormaliseOp(t.codec, op))
    ensures Agrees(ApplyTable(t, op), if Dropped(t, op) then m else ApplyMap(m, NormaliseOp(t.codec, op)))
  {
    ApplyKeepsValid(t, op);
    assert t.Get(op.key) == Lookup(m, op.key);
    if !Dropped(t, op) {
      forall k
        ensures ApplyTable(t, op).Get(k) == Lookup(ApplyMap(m, NormaliseOp(t.codec, op)), k)
      {
        assert t.Get(k) == Lookup(m, k);
        match op
        case Get(_) =>
        case Chown(key, u, g, du, dg) => ChownSimulates(t, key, u, g, du, dg, k);
        case Put(key, inode) => PutSimulates(t, key, inode, k);
        case Remove(key) => RemoveSimulates(t, key, k);
      }
    }
  }

  lemma FreshTable(t: Table)
    requires t.Shaped() && Faithful(t.codec) && AllEmpty(t.slots)
    ensures t.Valid() && Agrees(t, map[])
  {
  }
}
