/** The interposed calls over whichever backend a process uses, down to the shared table. */
module Hooks {
  import opened Base
  import opened Codec
  import opened XattrPage
  import opened State
  import opened InodeTable
  import opened TableLaws
  import opened TableRuns
  import opened Backends
  import opened Overlay

  datatype Backend = Shared(table: Table) | Mapped(link: Link, maps: Maps)

  ghost predicate Ready(b: Backend) {
    b.Shared? ==> b.table.Valid()
  }

  /** The entry a process sees for a key. */
  ghost function Visible(b: Backend, key: InodeKey): Option<FakeInode>
    requires Ready(b)
  {
    if b.Shared? then b.table.Get(key) else TwoLevel(b.link, b.maps, key)
  }

  ghost function Served(b: Backend, op: Op): (r: Backend)
    requires Ready(b)
    ensures Ready(r)
  {
    match b
    case Shared(t) => ApplyKeepsValid(t, op); Shared(ApplyTable(t, op))
    case Mapped(link, maps) => Mapped(link, Route(link, maps, op))
  }

  /** The backend after a request that may not have been sent. */
  ghost function Issued(b: Backend, r: Option<Request>): (after: Backend)
    requires Ready(b)
    ensures Ready(after)
  {
    match r
    case None => b
    case Some(request) => Served(b, Resolve(Visible(b, request.Key()), request))
  }

  /** What stat and the attribute calls report at a path. */
  ghost function BackendReport(looker: Ids, disk: Disk, b: Backend, p: Path): Option<Inode>
    requires Ready(b)
  {
    if p in disk.dir then Some(Patched(looker, OnDisk(disk, disk.dir[p]), Visible(b, disk.dir[p]))) else None
  }

  /** The backend reports what the ideal filesystem does now and after every step. */
  ghost predicate BackendSame(looker: Ids, disk: Disk, b: Backend, s: Ideal, calls: seq<Call>)
    requires Ready(b) && WellFormed(s)
    decreases |calls|
  {
    && (forall p :: BackendReport(looker, disk, b, p) == IdealReport(s, p))
    && (calls != [] ==>
          (IdealStepWellFormed(s, calls[0]);
           BackendSame(looker, DiskStep(disk, calls[0]), Issued(b, RequestOf(disk, calls[0])), IdealStep(s, calls[0]), calls[1..])))
  }

  // ----- Every backend reports what the ideal filesystem does -----

  /** The inode operations that a run comes to. */
  function OpOf(w: World, c: Call): seq<Op> {
    match RequestOf(w.disk, c)
    case None => []
    case Some(r) => [Resolve(Lookup(w.side, r.Key()), r)]
  }

  ghost function OpsOf(w: World, calls: seq<Call>): seq<Op>
    decreases |calls|
  {
    if calls == [] then [] else OpOf(w, calls[0]) + OpsOf(Step(w, calls[0]), calls[1..])
  }

  /** What a slot cannot hold. */
  function SlotLimits(c: Codec<Xattrs>): Limits {
    Limits(true, (x: Xattrs) => Kept(c, x))
  }

  lemma LimitsOfBackends(c: Codec<Xattrs>, op: Op)
    ensures TrimmedOp(SlotLimits(c), op) == NormaliseOp(c, op)
    ensures TrimmedOp(NoLimits(), op) == op
  {
  }

  /** Whether a backend shows exactly the entries of a plain map. */
  ghost predicate Shows(b: Backend, side: InodeMap)
    requires Ready(b)
  {
    && (b.Mapped? && b.link.enabled && b.link.connected ==> Coherent(b.maps))
    && forall k :: Visible(b, k) == Lookup(side, k)
  }

  lemma MappedStep(b: Backend, side: InodeMap, op: Op)
    requires b.Mapped? && Shows(b, side)
    ensures Shows(Served(b, op), ApplyMap(side, op))
  {
    RouteStep(b.link, b.maps, op);
    if b.link.enabled && b.link.connected {
      CoherentExactly(b.link, b.maps);
      CoherentExactly(b.link, Route(b.link, b.maps, op));
    }
    forall k
      ensures Visible(Served(b, op), k) == Lookup(ApplyMap(side, op), k)
    {
      assert Visible(b, k) == Lookup(side, k);
      assert Visible(b, op.key) == Lookup(side, op.key);
    }
  }

  lemma MappedCall(w: World, b: Backend, c: Call)
    requires b.Mapped? && Shows(b, w.side) && w.limits == NoLimits()
    ensures Shows(Issued(b, RequestOf(w.disk, c)), Step(w, c).side)
  {
    var r := RequestOf(w.disk, c);
    if r.Some? {
      assert Visible(b, r.value.Key()) == Lookup(w.side, r.value.Key());
      var op := Resolve(Lookup(w.side, r.value.Key()), r.value);
      LimitsOfBackends(XattrsCodec(), op);
      MappedStep(b, w.side, op);
    }
  }

  lemma ShownReport(w: World, b: Backend, p: Path)
    requires Ready(b) && Shows(b, w.side)
    ensures BackendReport(w.looker, w.disk, b, p) == Report(w, p)
  {
    if p in w.disk.dir {
      assert Visible(b, w.disk.dir[p]) == Lookup(w.side, w.disk.dir[p]);
    }
  }

  /** A backend that shows the side table reports the same as the side table. */
  lemma ShownReports(w: World, b: Backend, s: Ideal)
    requires Ready(b) && Shows(b, w.side) && WellFormed(s)
    ensures (forall p :: BackendReport(w.looker, w.disk, b, p) == IdealReport(s, p)) <==> SameReports(w, s)
  {
    forall p
      ensures BackendReport(w.looker, w.disk, b, p) == Report(w, p)
    {
      ShownReport(w, b, p);
    }
    if forall p :: BackendReport(w.looker, w.disk, b, p) == IdealReport(s, p) {
      forall p
        ensures Report(w, p) == IdealReport(s, p)
      {
        assert BackendReport(w.looker, w.disk, b, p) == IdealReport(s, p);
      }
    }
  }

  lemma {:induction false} MappedRun(w: World, b: Backend, s: Ideal, calls: seq<Call>)
    requires b.Mapped? && Shows(b, w.side) && w.limits == NoLimits() && WellFormed(s)
    ensures BackendSame(w.looker, w.disk, b, s, calls) <==> AlwaysSame(w, s, calls)
    decreases |calls|
  {
    ShownReports(w, b, s);
    if calls != [] {
      var c := calls[0];
      MappedCall(w, b, c);
      IdealStepWellFormed(s, c);
      MappedRun(Step(w, c), Issued(b, RequestOf(w.disk, c)), IdealStep(s, c), calls[1..]);
    }
  }

  lemma SharedStep(t: Table, before: seq<Op>, b: Backend, side: InodeMap, op: Op, after: seq<Op>)
    requires Fresh(t) && t.Valid() && |KeysWritten(before + [op] + after)| < |t.slots|
    requires RunTable(t, before).Valid() && b == Shared(RunTable(t, before)) && Shows(b, side)
    ensures RunTable(t, before + [op]).Valid() && Served(b, op) == Shared(RunTable(t, before + [op]))
    ensures Shows(Served(b, op), ApplyMap(side, NormaliseOp(t.codec, op)))
  {
    assert before + [op] + after == before + ([op] + after);
    NothingDropped(t, before, op, [op] + after);
    RunKeepsValid(t, before);
    assert Agrees(b.table, side) by {
      forall k
        ensures b.table.Get(k) == Lookup(side, k)
      {
        assert Visible(b, k) == Lookup(side, k);
      }
    }
    StepSimulates(b.table, side, op);
    RunAppend(t, before, op);
  }

  lemma SplitOps(before: seq<Op>, w: World, calls: seq<Call>)
    requires calls != []
    ensures
      var ops, rest := OpOf(w, calls[0]), OpsOf(Step(w, calls[0]), calls[1..]);
      before + OpsOf(w, calls) == before + ops + rest
  {
  }

  lemma SharedCall(t: Table, before: seq<Op>, w: World, b: Backend, c: Call, rest: seq<Op>)
    requires Fresh(t) && t.Valid() && |KeysWritten(before + OpOf(w, c) + rest)| < |t.slots|
    requires RunTable(t, before).Valid() && b == Shared(RunTable(t, before)) && Shows(b, w.side)
    requires w.limits == SlotLimits(t.codec)
    ensures RunTable(t, before + OpOf(w, c)).Valid()
    ensures Issued(b, RequestOf(w.disk, c)) == Shared(RunTable(t, before + OpOf(w, c)))
    ensures Shows(Issued(b, RequestOf(w.disk, c)), Step(w, c).side)
  {
    match RequestOf(w.disk, c)
    case None =>
      assert before + [] == before;
    case Some(r) =>
      assert Visible(b, r.Key()) == Lookup(w.side, r.Key());
      var op := Resolve(Lookup(w.side, r.Key()), r);
      LimitsOfBackends(t.codec, op);
      SharedStep(t, before, b, w.side, op, rest);
  }

  lemma {:induction false} SharedRun(t: Table, before: seq<Op>, w: World, b: Backend, s: Ideal, calls: seq<Call>)
    requires Fresh(t) && t.Valid() && |KeysWritten(before + OpsOf(w, calls))| < |t.slots|
    requires RunTable(t, before).Valid() && b == Shared(RunTable(t, before)) && Shows(b, w.side)
    requires w.limits == SlotLimits(t.codec) && WellFormed(s)
    ensures BackendSame(w.looker, w.disk, b, s, calls) <==> AlwaysSame(w, s, calls)
    decreases |calls|
  {
    ShownReports(w, b, s);
    if calls != [] {
      var c, w' := calls[0], Step(w, calls[0]);
      SplitOps(before, w, calls);
      SharedCall(t, before, w, b, c, OpsOf(w', calls[1..]));
      IdealStepWellFormed(s, c);
      SharedRun(t, before + OpOf(w, c), w', Issued(b, RequestOf(w.disk, c)), IdealStep(s, c), calls[1..]);
    }
  }

  lemma SlotsKeepSanely(c: Codec<Xattrs>)
    ensures Sane(SlotLimits(c).kept)
  {
  }

  /**
   From the slots of a fresh shared table up to stat: throughout every run that writes fewer
   keys than there are slots, each path reports what an ideal filesystem does whose inodes hold
   the attributes that a slot can, exactly when no call diverges.
   */
  lemma SharedOverlayIsIdeal(t: Table, looker: Ids, calls: seq<Call>)
    requires Fresh(t)
    requires
      var w := FreshWorld(SlotLimits(t.codec), looker);
      AllLegal(w, calls) && |KeysWritten(OpsOf(w, calls))| < |t.slots|
    ensures t.Valid()
    ensures
      var w, s := FreshWorld(SlotLimits(t.codec), looker), FreshIdeal(SlotLimits(t.codec));
      BackendSame(looker, w.disk, Shared(t), s, calls) <==> NoneDiverges(w, calls)
  {
    FreshTable(t);
    var w, s := FreshWorld(SlotLimits(t.codec), looker), FreshIdeal(SlotLimits(t.codec));
    assert [] + OpsOf(w, calls) == OpsOf(w, calls);
    assert RunTable(t, []) == t;
    SlotsKeepSanely(t.codec);
    SharedRun(t, [], w, Shared(t), s, calls);
    OverlayIsIdeal(SlotLimits(t.codec), looker, calls);
  }

  /** The same for a single client of a daemon and for a process on its own, with no bound and no limits. */
  lemma MappedOverlayIsIdeal(link: Link, looker: Ids, calls: seq<Call>)
    requires AllLegal(FreshWorld(NoLimits(), looker), calls)
    ensures
      var w, s := FreshWorld(NoLimits(), looker), FreshIdeal(NoLimits());
      BackendSame(looker, w.disk, Mapped(link, Maps(map[], map[])), s, calls) <==> NoneDiverges(w, calls)
  {
    MappedRun(FreshWorld(NoLimits(), looker), Mapped(link, Maps(map[], map[])), FreshIdeal(NoLimits()), calls);
    OverlayIsIdeal(NoLimits(), looker, calls);
  }

  // ----- The calls -----

  const ERANGE: int := 34

  /** The real filesystem, as the system calls change it. */
  class FileSystem {
    var disk: Disk

    constructor ()
      ensures disk == Disk(map[], map[])
    {
      disk := Disk(map[], map[]);
    }

    /** The key, link count and inode that a real stat finds. */
    method Stat(path: Path) returns (r: Option<(InodeKey, nat, Node)>)
      ensures r == if path in disk.dir
                   then Some((disk.dir[path], |Links(disk, disk.dir[path])|, OnDisk(disk, disk.dir[path])))
                   else None
    {
      if path !in disk.dir {
        return None;
      }
      var key := disk.dir[path];
      return Some((key, |Links(disk, key)|, OnDisk(disk, key)));
    }

    /** Opens for writing, creating a regular file when there is none. */
    method OpenOrCreate(path: Path, ino: InodeKey, umask: u32, openOk: bool) returns (ok: bool)
      modifies this
      ensures disk == if openOk then Created(old(disk), path, ino, Placeholder(umask)) else old(disk)
      ensures ok == openOk
    {
      if openOk && path !in disk.dir {
        disk := Disk(disk.dir[path := ino], disk.nodes[ino := Placeholder(umask)]);
      }
      return openOk;
    }

    /** Makes a real special file of the kinds there are. */
    method Mknod(path: Path, ino: InodeKey, umask: u32, mode: u32, dev: u64, realOk: bool) returns (rc: int)
      modifies this
      ensures disk == if realOk && IsNodeKind(mode) then Created(old(disk), path, ino, Special(umask, mode, dev)) else old(disk)
      ensures rc == if realOk && IsNodeKind(mode) && path !in old(disk).dir then 0 else -1
    {
      if !realOk || path in disk.dir || !IsNodeKind(mode) {
        return -1;
      }
      disk := Disk(disk.dir[path := ino], disk.nodes[ino := Special(umask, mode, dev)]);
      return 0;
    }

    method Chmod(path: Path, mode: u32, realOk: bool) returns (rc: int)
      modifies this
      ensures forall ids :: disk == DiskStep(old(disk), ChmodFile(path, mode, realOk, ids))
      ensures rc == if realOk && path in disk.dir then 0 else -1
    {
      if path !in disk.dir || !realOk {
        return -1;
      }
      disk := ModeChanged(disk, disk.dir[path], mode);
      return 0;
    }

    method Unlink(path: Path, realOk: bool) returns (rc: int)
      modifies this
      ensures disk == DiskStep(old(disk), Call.Unlink(path, realOk))
      ensures rc == if realOk && path in old(disk).dir then 0 else -1
    {
      if path !in disk.dir || !realOk {
        assert path !in disk.dir ==> disk.dir - {path} == disk.dir;
        return -1;
      }
      disk := disk.(dir := disk.dir - {path});
      return 0;
    }

    method Rename(path: Path, target: Path, realOk: bool) returns (rc: int)
      modifies this
      ensures disk == DiskStep(old(disk), Call.Rename(path, target, realOk))
      ensures rc == if realOk && path in old(disk).dir then 0 else -1
    {
      if path !in disk.dir || !realOk {
        return -1;
      }
      if target !in disk.dir || disk.dir[target] != disk.dir[path] {
        disk := disk.(dir := (disk.dir - {path})[target := disk.dir[path]]);
      }
      return 0;
    }
  }

  /** One process with its hooks in place. */
  class Process {
    const fs: FileSystem
    const router: Router
    /** The current ids as the backend has them, and as this process remembers them. */
    var ids: Ids
    var localIds: Ids

    constructor (fs: FileSystem, router: Router, ids: Ids, localIds: Ids)
      requires router.Valid()
      ensures this.fs == fs && this.router == router && this.ids == ids && this.localIds == localIds
      ensures Valid()
    {
      this.fs, this.router, this.ids, this.localIds := fs, router, ids, localIds;
    }

    ghost predicate Valid()
      reads this, router, router.local, router.daemon, router.shm,
            if router.shm != null then {router.shm.base} else {}
    {
      router.Valid()
    }

    ghost function Backing(): (b: Backend)
      requires Valid()
      reads this, router, router.local, router.daemon, router.shm,
            if router.shm != null then {router.shm.base} else {}
      ensures Ready(b)
    {
      if router.shm != null then Shared(router.shm.Model()) else Mapped(router.link, router.Both())
    }

    method Chown(path: Path, uid: u32, gid: u32) returns (rc: int)
      requires Valid()
      modifies router.local`inodeMap, router.daemon`inodeMap, router.shm, if router.shm != null then {router.shm.base} else {}
      ensures Valid()
      ensures Backing() == Issued(old(Backing()), RequestOf(fs.disk, ChownFile(path, uid, gid, ids)))
      ensures rc == if HookSucceeds(fs.disk, ChownFile(path, uid, gid, ids)) then 0 else -1
    {
      var st := fs.Stat(path);
      if st.None? {
        return -1;
      }
      router.RecordChown(st.value.0, uid, gid, ids.uid, ids.gid);
      return 0;
    }

    /** Records the composed mode first; the outcome of the real chmod is not reported. */
    method Chmod(path: Path, mode: u32, realOk: bool) returns (rc: int)
      requires Valid()
      modifies fs
      modifies router.local`inodeMap, router.daemon`inodeMap, router.shm, if router.shm != null then {router.shm.base} else {}
      ensures Valid()
      ensures fs.disk == DiskStep(old(fs.disk), ChmodFile(path, mode, realOk, ids))
      ensures Backing() == Issued(old(Backing()), RequestOf(old(fs.disk), ChmodFile(path, mode, realOk, ids)))
      ensures rc == if HookSucceeds(old(fs.disk), ChmodFile(path, mode, realOk, ids)) then 0 else -1
    {
      var st := fs.Stat(path);
      if st.None? {
        return -1;
      }
      var composed := ComposeMode(st.value.2.mode, mode);
      router.UpdateInode(st.value.0, (e: FakeInode) => e.(mode := Some(composed)), ids.uid, ids.gid);
      var _ := fs.Chmod(path, mode, realOk);
      return 0;
    }

    method SetXattr(path: Path, attr: Bytes, value: Bytes, flag: XattrFlag) returns (rc: int)
      requires Valid()
      modifies router.local`inodeMap, router.daemon`inodeMap, router.shm, if router.shm != null then {router.shm.base} else {}
      ensures Valid()
      ensures Backing() == Issued(old(Backing()), RequestOf(fs.disk, Call.SetXattr(path, attr, value, flag, ids)))
      ensures rc == if HookSucceeds(fs.disk, Call.SetXattr(path, attr, value, flag, ids)) then 0 else -1
    {
      var st := fs.Stat(path);
      if st.None? {
        return -1;
      }
      router.UpdateInode(st.value.0, (e: FakeInode) => e.(xattrs := e.xattrs[attr := CappedValue(value)]), ids.uid, ids.gid);
      return 0;
    }

    method RemoveXattr(path: Path, attr: Bytes) returns (rc: int)
      requires Valid()
      modifies router.local`inodeMap, router.daemon`inodeMap, router.shm, if router.shm != null then {router.shm.base} else {}
      ensures Valid()
      ensures Backing() == Issued(old(Backing()), RequestOf(fs.disk, Call.RemoveXattr(path, attr, ids)))
      ensures rc == if HookSucceeds(fs.disk, Call.RemoveXattr(path, attr, ids)) then 0 else -1
    {
      var st := fs.Stat(path);
      if st.None? {
        return -1;
      }
      router.UpdateInode(st.value.0, (e: FakeInode) => e.(xattrs := e.xattrs - {attr}), ids.uid, ids.gid);
      return 0;
    }

    /** A regular placeholder on disk, whose entry says what it pretends to be. */
    method FinishMknod(path: Path, ino: InodeKey, umask: u32, mode: u32, dev: u64, openOk: bool) returns (rc: int)
      requires Valid()
      modifies fs
      modifies router.local`inodeMap, router.daemon`inodeMap, router.shm, if router.shm != null then {router.shm.base} else {}
      ensures Valid()
      ensures rc == if openOk then 0 else -1
      ensures fs.disk == if openOk then Created(old(fs.disk), path, ino, Placeholder(umask)) else old(fs.disk)
      ensures
        var r := Plain(Put(if path in old(fs.disk).dir then old(fs.disk).dir[path] else ino, Stamp(mode, dev, ids)));
        Backing() == Issued(old(Backing()), if openOk then Some(r) else None)
    {
      var ok := fs.OpenOrCreate(path, ino, umask, openOk);
      if !ok {
        return -1;
      }
      var st := fs.Stat(path);
      var inode := NewInode(ids.uid, ids.gid).(mode := Some(mode));
      if IsDevice(mode) {
        inode := inode.(rdev := Some(dev));
      }
      router.SetInode(st.value.0, inode);
      return 0;
    }

    /** The real call is made only when the placeholder cannot be opened. */
    method Mknod(path: Path, ino: InodeKey, umask: u32, mode: u32, dev: u64, openOk: bool, realOk: bool) returns (rc: int)
      requires Valid()
      modifies fs
      modifies router.local`inodeMap, router.daemon`inodeMap, router.shm, if router.shm != null then {router.shm.base} else {}
      ensures Valid()
      ensures
        var c := Call.Mknod(path, ino, umask, mode, dev, openOk, realOk, ids);
        && fs.disk == DiskStep(old(fs.disk), c)
        && Backing() == Issued(old(Backing()), RequestOf(old(fs.disk), c))
        && rc == if HookSucceeds(old(fs.disk), c) then 0 else -1
    {
      rc := FinishMknod(path, ino, umask, mode, dev, openOk);
      if rc < 0 {
        rc := fs.Mknod(path, ino, umask, mode, dev, realOk);
      }
    }

    /** Drops the entry of a file that has no other link. */
    method MaybeRemoveInode(key: InodeKey, nlink: nat)
      requires Valid()
      modifies router.local`inodeMap, router.daemon`inodeMap, router.shm, if router.shm != null then {router.shm.base} else {}
      ensures Valid()
      ensures Backing() == Issued(old(Backing()), if nlink <= 1 then Some(Plain(Remove(key))) else None)
    {
      if nlink <= 1 {
        router.RemoveInode(key);
      }
    }

    /** The entry goes before the real call. */
    method Unlink(path: Path, realOk: bool) returns (rc: int)
      requires Valid()
      modifies fs
      modifies router.local`inodeMap, router.daemon`inodeMap, router.shm, if router.shm != null then {router.shm.base} else {}
      ensures Valid()
      ensures fs.disk == DiskStep(old(fs.disk), Call.Unlink(path, realOk))
      ensures Backing() == Issued(old(Backing()), RequestOf(old(fs.disk), Call.Unlink(path, realOk)))
      ensures rc == if HookSucceeds(old(fs.disk), Call.Unlink(path, realOk)) then 0 else -1
    {
      var st := fs.Stat(path);
      if st.Some? {
        MaybeRemoveInode(st.value.0, st.value.1);
      }
      rc := fs.Unlink(path, realOk);
    }

    /** Drops the entry of the file that a rename is about to overwrite. */
    method PrepareRenameOverwrite(path: Path, target: Path)
      requires Valid()
      modifies router.local`inodeMap, router.daemon`inodeMap, router.shm, if router.shm != null then {router.shm.base} else {}
      ensures Valid()
      ensures Backing() == Issued(old(Backing()), OverwriteRequest(fs.disk, path, target))
    {
      var newSt := fs.Stat(target);
      if newSt.Some? {
        var oldSt := fs.Stat(path);
        if oldSt.Some? {
          if newSt.value.0 != oldSt.value.0 {
            MaybeRemoveInode(newSt.value.0, newSt.value.1);
          }
        } else {
          MaybeRemoveInode(newSt.value.0, newSt.value.1);
        }
      }
    }

    method Rename(path: Path, target: Path, realOk: bool) returns (rc: int)
      requires Valid()
      modifies fs
      modifies router.local`inodeMap, router.daemon`inodeMap, router.shm, if router.shm != null then {router.shm.base} else {}
      ensures Valid()
      ensures fs.disk == DiskStep(old(fs.disk), Call.Rename(path, target, realOk))
      ensures Backing() == Issued(old(Backing()), RequestOf(old(fs.disk), Call.Rename(path, target, realOk)))
      ensures rc == if HookSucceeds(old(fs.disk), Call.Rename(path, target, realOk)) then 0 else -1
    {
      PrepareRenameOverwrite(path, target);
      rc := fs.Rename(path, target, realOk);
    }

    /** The patched stat buffer; an unrecorded file belongs to the ids this process remembers. */
    method Stat(path: Path) returns (r: Option<(u32, u32, u32, u64)>)
      requires Valid()
      ensures
        var n := BackendReport(localIds, fs.disk, Backing(), path);
        match n
        case Some(inode) => r == Some((inode.owner.uid, inode.owner.gid, inode.mode, inode.rdev))
        case None => r == None
    {
      var st := fs.Stat(path);
      if st.None? {
        return None;
      }
      var node := st.value.2;
      var entry := router.GetInode(st.value.0);
      if entry.None? {
        return Some((localIds.uid, localIds.gid, node.mode, node.rdev));
      }
      var e := entry.value;
      return Some((e.uid, e.gid, e.mode.GetOr(node.mode), e.rdev.GetOr(node.rdev)));
    }

    /**
     A recorded attribute comes back whole, or only its length when no room is offered, or
     not at all when the room is too small; for any other the real call answers.
     */
    method GetXattr(path: Path, attr: Bytes, size: nat, realRc: int) returns (rc: int, copied: Option<Bytes>)
      requires Valid()
      ensures
        var n := BackendReport(localIds, fs.disk, Backing(), path);
        if n.Some? && attr in n.value.xattrs then
          var value := n.value.xattrs[attr];
          && (rc == if size == 0 || |value| <= size then |value| else -34)
          && (copied == if size > 0 && |value| <= size then Some(value) else None)
        else rc == realRc && copied == None
    {
      var st := fs.Stat(path);
      if st.Some? {
        var entry := router.GetInode(st.value.0);
        if entry.Some? && attr in entry.value.xattrs {
          var value := entry.value.xattrs[attr];
          if size == 0 {
            return |value|, None;
          }
          if |value| > size {
            return -ERANGE, None;
          }
          return |value|, Some(value);
        }
      }
      return realRc, None;
    }
  }
}
