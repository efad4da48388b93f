/**
 The shared table decoded from its bytes, and the operations on it as functions of that value.
 */
module InodeTable {
  import opened Base
  import opened Codec
  import opened XattrPage
  import opened InodeHash
  import opened Layout
  import opened Probing

  function CellOf(s: Slot): Cell {
    if s.occupied == SLOT_EMPTY then Empty
    else if s.occupied == SLOT_LIVE then Live((s.dev, s.ino))
    else if s.occupied == SLOT_TOMBSTONE then Tomb
    else Other
  }

  function Cells(slots: seq<Slot>): (cells: seq<Cell>)
    ensures |cells| == |slots|
  {
    seq(|slots|, i requires 0 <= i < |slots| => CellOf(slots[i]))
  }

  lemma CellsAfterStore(slots: seq<Slot>, i: nat, s: Slot)
    requires i < |slots|
    ensures Cells(slots[i := s]) == Cells(slots)[i := CellOf(s)]
  {
  }

  /** The home position of a key in a table of n slots. */
  function BucketIn(n: nat): Home
    requires n > 0
  {
    (k: InodeKey) => Hash(n, k.0, k.1)
  }

  lemma BucketsFit(n: nat)
    requires n > 0
    ensures HomesFit(BucketIn(n), n)
  {
  }

  /** The inode that a slot's fields and a set of attributes spell. */
  function InodeOf(s: Slot, x: Xattrs): FakeInode {
    FakeInode(s.uid, s.gid, if s.mode != 0 then Some(s.mode) else None, if s.rdev != 0 then Some(s.rdev) else None, x)
  }

  datatype Table = Table(home: Home, codec: Codec<Xattrs>, slots: seq<Slot>, pages: seq<Page>) {

    ghost predicate Shaped() {
      |slots| == |pages| && HomesFit(home, |slots|)
    }

    /** The probe invariant, over a serializer that can be undone. */
    ghost predicate Valid() {
      Shaped() && Inv(Cells(slots), home) && Faithful(codec)
    }

    function Search(key: InodeKey): (r: Probe)
      requires Shaped()
      ensures r.Full? || r.index < |slots|
    {
      ProbeOf(Cells(slots), home, key)
    }

    function InodeAt(i: nat): FakeInode
      requires i < |slots| == |pages|
    {
      InodeOf(slots[i], ReadPage(codec, pages[i]))
    }

    function Get(key: InodeKey): Option<FakeInode>
      requires Shaped()
    {
      match Search(key)
      case Found(i) => Some(InodeAt(i))
      case _ => None
    }

    /** The table with slot i and its page replaced. */
    function Store(i: nat, s: Slot, x: Xattrs): Table
      requires i < |slots| == |pages|
    {
      this.(slots := slots[i := s], pages := pages[i := WritePage(codec, pages[i], x)])
    }

    function Chown(key: InodeKey, uid: u32, gid: u32, defaultUid: u32, defaultGid: u32): Table
      requires Shaped()
    {
      match Search(key)
      case Found(i) =>
        this.(slots := slots[i := slots[i].(uid := Chosen(uid, slots[i].uid), gid := Chosen(gid, slots[i].gid))])
      case Vacant(i) =>
        Store(i, Slot(SLOT_LIVE, key.0, key.1, Chosen(uid, defaultUid), Chosen(gid, defaultGid), 0, 0), map[])
      case Full => this
    }

    function Put(key: InodeKey, inode: FakeInode): Table
      requires Shaped()
    {
      match Search(key)
      case Full => this
      case _ =>
        Store(Search(key).index,
              Slot(SLOT_LIVE, key.0, key.1, inode.uid, inode.gid, inode.mode.GetOr(0), inode.rdev.GetOr(0)),
              inode.xattrs)
    }

    function Remove(key: InodeKey): Table
      requires Shaped()
    {
      match Search(key)
      case Found(i) => Store(i, slots[i].(occupied := SLOT_TOMBSTONE), map[])
      case _ => this
    }
  }
}
