/**
 The overlay: hooks that keep metadata in a side table keyed by inode number, over a filesystem
 that knows nothing of it, against a filesystem that stores the metadata inside the inode.
 */
module Overlay {
  import opened Base
  import opened Division
  import opened InodeHash
  import opened State
  import opened Backends

  type Path = string

  /** Permission bits are those below this one. */
  const PERMISSIONS: int := 0x1000
  /** A umask counts only below this one. */
  const UMASK_LIMIT: int := 0x200
  const S_IFMT_LIMIT: int := 0x1_0000
  const S_IFIFO: int := 0x1000
  const S_IFCHR: int := 0x2000
  const S_IFBLK: int := 0x6000
  const S_IFREG: int := 0x8000
  const S_IFSOCK: int := 0xC000
  const S_ISUID: int := 0x800
  const S_ISGID: int := 0x400
  const S_IXGRP: int := 0x8
  const PLACEHOLDER_PERMS: nat := 0x1A4
  const MAX_XATTR: nat := 65536

  /** The type bits of a mode. */
  function TypeBits(mode: u32): u32 {
    mode - mode % PERMISSIONS
  }

  /** The type bits of one mode with the permission bits of another. */
  function ComposeMode(onDisk: u32, requested: u32): u32 {
    TypeBits(onDisk) + requested % PERMISSIONS
  }

  /** The kind of file a mode asks for. */
  function Kind(mode: u32): nat {
    TypeBits(mode) % S_IFMT_LIMIT
  }

  /** Whether a mode asks for a device node, the only kinds with a device number. */
  predicate IsDevice(mode: u32) {
    Kind(mode) == S_IFCHR || Kind(mode) == S_IFBLK
  }

  /** The kinds that mknod makes; no kind at all means a regular file. */
  predicate IsNodeKind(mode: u32) {
    Kind(mode) in {0, S_IFREG, S_IFCHR, S_IFBLK, S_IFIFO, S_IFSOCK}
  }

  /** The bits that a mask does not take away. */
  function Without(bits: nat, mask: nat): (r: nat)
    ensures r <= bits
  {
    if bits == 0 then 0
    else (if bits % 2 == 1 && mask % 2 == 0 then 1 else 0) + 2 * Without(bits / 2, mask / 2)
  }

  /** The mode of a file that mknod really makes. */
  function NodeMode(mode: u32, umask: u32): u32 {
    (if Kind(mode) == 0 then S_IFREG else Kind(mode)) + Without(mode % PERMISSIONS, umask % UMASK_LIMIT)
  }

  /** A bit stays exactly when the mask does not have it. */
  lemma {:induction false} WithoutBits(bits: nat, mask: nat, i: nat)
    ensures Bit(Without(bits, mask), i) <==> Bit(bits, i) && !Bit(mask, i)
    decreases i
  {
    if bits == 0 {
      NoBits(i);
    } else {
      var low := if bits % 2 == 1 && mask % 2 == 0 then 1 else 0;
      assert Without(bits, mask) / 2 == Without(bits / 2, mask / 2) && Without(bits, mask) % 2 == low;
      if i > 0 {
        WithoutBits(bits / 2, mask / 2, i - 1);
      }
    }
  }

  lemma {:induction false} NoBits(i: nat)
    ensures !Bit(0, i)
    decreases i
  {
    if i > 0 {
      NoBits(i - 1);
    }
  }

  lemma KindNumber(mode: u32)
    ensures Kind(mode) == mode / 0x1000 % 16 * 0x1000
  {
    var k := mode / 0x1000;
    assert TypeBits(mode) == k * 0x1000;
    assert k == k / 16 * 16 + k % 16;
    ModUnique(TypeBits(mode), S_IFMT_LIMIT, k / 16, k % 16 * 0x1000);
  }

  /** The kinds of mknod by number: regular by default, fifo, character and block device, socket. */
  lemma NodeKinds(mode: u32, umask: u32, i: nat)
    ensures IsNodeKind(mode) <==> mode / 0x1000 % 16 in {0, 1, 2, 6, 8, 12}
    ensures NodeMode(mode, umask) / 0x1000 == if mode / 0x1000 % 16 == 0 then 8 else mode / 0x1000 % 16
    ensures Bit(NodeMode(mode, umask) % 0x1000, i) <==> Bit(mode % 0x1000, i) && !Bit(umask % 0x200, i)
  {
    WithoutBits(mode % PERMISSIONS, umask % UMASK_LIMIT, i);
    KindNumber(mode);
  }

  /** The mode once a change of owner has cleared its set-id bits. */
  function SansSetId(mode: u32): u32 {
    var sansUid := if mode / S_ISUID % 2 == 1 then mode - S_ISUID else mode;
    if sansUid / S_ISGID % 2 == 1 && sansUid / S_IXGRP % 2 == 1 then sansUid - S_ISGID else sansUid
  }

  /** A set-user-id bit goes, and a set-group-id bit of a file its group may execute. */
  lemma ClearedBits(mode: u32)
    ensures
      SansSetId(mode)
      == mode - (if mode / 2048 % 2 == 1 then 2048 else 0)
              - (if mode / 1024 % 2 == 1 && mode / 8 % 2 == 1 then 1024 else 0)
  {
    assert (mode - 2048) / 1024 == mode / 1024 - 2;
    assert (mode - 2048) / 8 == mode / 8 - 256;
    LowerByEven(mode / 1024, 1);
    LowerByEven(mode / 8, 128);
  }

  lemma LowerByEven(x: int, k: int)
    ensures (x - 2 * k) % 2 == x % 2
  {
  }

  function CappedValue(value: Bytes): Bytes {
    if |value| > MAX_XATTR then value[..MAX_XATTR] else value
  }

  /** The attribute that holds a file's capabilities, which a change of owner clears. */
  const CAPABILITY: Bytes := Ascii("security.capability")

  // ----- The real filesystem -----

  /** What the real filesystem keeps of an inode, as far as the hooks look at it. */
  datatype Node = Node(mode: u32, rdev: u64)

  /** Directory entries and the real inodes behind them. */
  datatype Disk = Disk(dir: map<Path, InodeKey>, nodes: map<InodeKey, Node>)

  function Links(disk: Disk, key: InodeKey): set<Path> {
    set p | p in disk.dir && disk.dir[p] == key
  }

  function OnDisk(disk: Disk, key: InodeKey): Node {
    if key in disk.nodes then disk.nodes[key] else Node(S_IFREG, 0)
  }

  /** Whether setting an attribute asks for a new one or an old one. */
  datatype XattrFlag = Either | CreateOnly | ReplaceOnly

  /**
   A call on files that are not directories, with the ids of the caller. Calls that create a
   file carry the inode number the filesystem picks; calls with a real part that can fail carry
   whether it succeeds. A mknod opens a placeholder first and makes the real call only when
   that open fails.
   */
  datatype Call =
    | Create(path: Path, ino: InodeKey, perms: u32, ids: Ids)
    | HardLink(path: Path, name: Path)
    | ChownFile(path: Path, uid: u32, gid: u32, ids: Ids)
    | ChmodFile(path: Path, mode: u32, realOk: bool, ids: Ids)
    | SetXattr(path: Path, attr: Bytes, value: Bytes, flag: XattrFlag, ids: Ids)
    | RemoveXattr(path: Path, attr: Bytes, ids: Ids)
    | Mknod(path: Path, ino: InodeKey, umask: u32, mode: u32, dev: u64, openOk: bool, realOk: bool, ids: Ids)
    | Unlink(path: Path, realOk: bool)
    | Rename(path: Path, target: Path, realOk: bool)

  /** A new file, unless there is one at the path. */
  function Created(disk: Disk, path: Path, ino: InodeKey, node: Node): Disk {
    if path in disk.dir then disk else Disk(disk.dir[path := ino], disk.nodes[ino := node])
  }

  function Regular(perms: u32): Node {
    Node(S_IFREG + perms % PERMISSIONS, 0)
  }

  /** The regular file that stands for a fake special one. */
  function Placeholder(umask: u32): Node {
    Regular(Without(PLACEHOLDER_PERMS, umask % UMASK_LIMIT))
  }

  /** A real special file. */
  function Special(umask: u32, mode: u32, dev: u64): Node {
    Node(NodeMode(mode, umask), if IsDevice(mode) then dev else 0)
  }

  function Renamed<T(==)>(dir: map<Path, T>, path: Path, target: Path): map<Path, T> {
    if path !in dir || (target in dir && dir[target] == dir[path]) then dir
    else (dir - {path})[target := dir[path]]
  }

  /** What the real system calls do. */
  function DiskStep(disk: Disk, c: Call): Disk {
    match c
    case Create(p, ino, perms, _) => Created(disk, p, ino, Regular(perms))
    case Mknod(p, ino, umask, mode, dev, openOk, realOk, _) =>
      if openOk then Created(disk, p, ino, Placeholder(umask))
      else if realOk && IsNodeKind(mode) then Created(disk, p, ino, Special(umask, mode, dev))
      else disk
    case HardLink(p, n) =>
      if p in disk.dir && n !in disk.dir then disk.(dir := disk.dir[n := disk.dir[p]]) else disk
    case ChmodFile(p, mode, ok, _) => if p in disk.dir && ok then ModeChanged(disk, disk.dir[p], mode) else disk
    case Unlink(p, ok) => if ok then disk.(dir := disk.dir - {p}) else disk
    case Rename(p, t, ok) => if ok then disk.(dir := Renamed(disk.dir, p, t)) else disk
    case _ => disk
  }

  function ModeChanged(disk: Disk, key: InodeKey, mode: u32): Disk {
    var node := OnDisk(disk, key);
    disk.(nodes := disk.nodes[key := node.(mode := ComposeMode(node.mode, mode))])
  }

  /** Which names are left by an unlink, a rename and a new link, and what they name. */
  lemma NamesLeft(disk: Disk, p: Path, t: Path, ok: bool, q: Path)
    ensures
      var after := DiskStep(disk, Unlink(p, ok)).dir;
      (q in after <==> q in disk.dir && !(ok && q == p)) && (q in after ==> after[q] == disk.dir[q])
    ensures
      var after := DiskStep(disk, Rename(p, t, ok)).dir;
      if ok && p in disk.dir && !(t in disk.dir && disk.dir[t] == disk.dir[p]) then
        && (q in after <==> q == t || (q in disk.dir && q != p))
        && (q in after ==> after[q] == disk.dir[if q == t then p else q])
      else after == disk.dir
    ensures
      var after := DiskStep(disk, HardLink(p, t)).dir;
      if p in disk.dir && t !in disk.dir then
        (q in after <==> q == t || q in disk.dir) && (q in after ==> after[q] == disk.dir[if q == t then p else q])
      else after == disk.dir
  {
  }

  /** The entry of a fake special file. */
  function Stamp(mode: u32, dev: u64, ids: Ids): FakeInode {
    FakeInode(ids.uid, ids.gid, Some(mode), if IsDevice(mode) then Some(dev) else None, map[])
  }

  function Dropping(disk: Disk, key: InodeKey): Option<Request> {
    if |Links(disk, key)| <= 1 then Some(Plain(Remove(key))) else None
  }

  /** A rename drops the entry of the file it is about to overwrite, unless both paths name one inode. */
  function OverwriteRequest(disk: Disk, path: Path, target: Path): Option<Request> {
    if target !in disk.dir || (path in disk.dir && disk.dir[path] == disk.dir[target]) then None
    else Dropping(disk, disk.dir[target])
  }

  /** The request that a hook sends to the side table, if it sends one. */
  function RequestOf(disk: Disk, c: Call): Option<Request> {
    match c
    case Create(_, _, _, _) => None
    case HardLink(_, _) => None
    case Mknod(p, ino, _, mode, dev, openOk, _, ids) =>
      if openOk then Some(Plain(Put(if p in disk.dir then disk.dir[p] else ino, Stamp(mode, dev, ids)))) else None
    case Rename(p, t, _) => OverwriteRequest(disk, p, t)
    case _ =>
      if c.path !in disk.dir then None
      else
        var key := disk.dir[c.path];
        match c
        case ChownFile(_, uid, gid, ids) => Some(Plain(Chown(key, uid, gid, ids.uid, ids.gid)))
        case ChmodFile(_, mode, _, ids) =>
          var composed := ComposeMode(OnDisk(disk, key).mode, mode);
          Some(Update(key, (e: FakeInode) => e.(mode := Some(composed)), ids.uid, ids.gid))
        case SetXattr(_, a, v, _, ids) =>
          Some(Update(key, (e: FakeInode) => e.(xattrs := e.xattrs[a := CappedValue(v)]), ids.uid, ids.gid))
        case RemoveXattr(_, a, ids) =>
          Some(Update(key, (e: FakeInode) => e.(xattrs := e.xattrs - {a}), ids.uid, ids.gid))
        case _ => Dropping(disk, key)
  }

  /** What a side table cannot hold: zeros as recorded values, and attributes beyond some measure. */
  datatype Limits = Limits(zeroIsUnset: bool, kept: Xattrs -> Xattrs)

  function NoLimits(): Limits {
    Limits(false, (x: Xattrs) => x)
  }

  function Trimmed(l: Limits, e: FakeInode): FakeInode {
    e.(mode := if l.zeroIsUnset && e.mode == Some(0) then None else e.mode,
       rdev := if l.zeroIsUnset && e.rdev == Some(0) then None else e.rdev,
       xattrs := l.kept(e.xattrs))
  }

  function TrimmedOp(l: Limits, op: Op): Op {
    if op.Put? then Put(op.key, Trimmed(l, op.inode)) else op
  }

  /** The side table after a request that may not have been sent. */
  function SideStep(l: Limits, side: InodeMap, r: Option<Request>): InodeMap {
    match r
    case None => side
    case Some(request) => ApplyMap(side, TrimmedOp(l, Resolve(Lookup(side, request.Key()), request)))
  }

  /** The hooks' world, as a process with the looker's ids sees it. */
  datatype World = World(limits: Limits, looker: Ids, disk: Disk, side: InodeMap)

  function Step(w: World, c: Call): World {
    w.(disk := DiskStep(w.disk, c), side := SideStep(w.limits, w.side, RequestOf(w.disk, c)))
  }

  function Run(w: World, calls: seq<Call>): World
    decreases |calls|
  {
    if calls == [] then w else Run(Step(w, calls[0]), calls[1..])
  }

  /** A filesystem gives a new file an inode number that no remaining link uses. */
  predicate Legal(disk: Disk, c: Call) {
    Creates(c) && c.path !in disk.dir ==> c.ino !in disk.dir.Values
  }

  predicate Creates(c: Call) {
    c.Create? || c.Mknod?
  }

  /** All that a file reports. */
  datatype Inode = Inode(owner: Ids, mode: u32, rdev: u64, xattrs: Xattrs)

  /** The side table's entry patched over the real inode; what nobody recorded belongs to the looker. */
  function Patched(looker: Ids, node: Node, entry: Option<FakeInode>): Inode {
    match entry
    case None => Inode(looker, node.mode, node.rdev, map[])
    case Some(e) => Inode(Ids(e.uid, e.gid), e.mode.GetOr(node.mode), e.rdev.GetOr(node.rdev), e.xattrs)
  }

  /** What the hooks report for an inode, linked or not. */
  function View(w: World, key: InodeKey): Inode {
    Patched(w.looker, OnDisk(w.disk, key), Lookup(w.side, key))
  }

  function Report(w: World, p: Path): Option<Inode> {
    if p in w.disk.dir then Some(View(w, w.disk.dir[p])) else None
  }

  // ----- The ideal filesystem -----

  /**
   Inodes are numbered in order of creation and a number is never used again. Attributes beyond
   what an inode can hold are dropped by the same measure as in the side table.
   */
  datatype Ideal = Ideal(kept: Xattrs -> Xattrs, dir: map<Path, nat>, inodes: seq<Inode>)

  ghost predicate WellFormed(s: Ideal) {
    forall p :: p in s.dir ==> s.dir[p] < |s.inodes|
  }

  ghost function IdealReport(s: Ideal, p: Path): Option<Inode>
    requires WellFormed(s)
  {
    if p in s.dir then Some(s.inodes[s.dir[p]]) else None
  }

  /** Values that are too long, attributes that must not be there or must, and those that are not there to remove. */
  predicate Refuses(n: Inode, c: Call) {
    match c
    case SetXattr(_, a, v, flag, _) =>
      || |v| > MAX_XATTR
      || (flag.CreateOnly? && a in n.xattrs)
      || (flag.ReplaceOnly? && a !in n.xattrs)
    case RemoveXattr(_, a, _) => a !in n.xattrs
    case _ => false
  }

  /**
   What a call does to the existing inode it names. A chown clears set-id bits and capabilities,
   a chmod keeps the type, and nothing but a chown changes the owner.
   */
  function Edited(kept: Xattrs -> Xattrs, n: Inode, c: Call): Inode {
    if Refuses(n, c) then n
    else
      match c
      case ChownFile(_, uid, gid, _) =>
        n.(owner := Ids(Chosen(uid, n.owner.uid), Chosen(gid, n.owner.gid)),
           mode := SansSetId(n.mode), xattrs := n.xattrs - {CAPABILITY})
      case ChmodFile(_, mode, _, _) => n.(mode := ComposeMode(n.mode, mode))
      case SetXattr(_, a, v, _, _) => n.(xattrs := kept(n.xattrs[a := v]))
      case RemoveXattr(_, a, _) => n.(xattrs := kept(n.xattrs - {a}))
      case _ => n
  }

  /** The inode a call makes when there is nothing at its path, if it makes one; it belongs to its maker. */
  function Made(c: Call): Option<Inode> {
    match c
    case Create(_, _, perms, ids) => Some(Inode(ids, Regular(perms).mode, 0, map[]))
    case Mknod(_, _, umask, mode, dev, openOk, realOk, ids) =>
      if IsNodeKind(mode) && (openOk || realOk) then
        Some(Inode(ids, Special(umask, mode, dev).mode, Special(umask, mode, dev).rdev, map[]))
      else None
    case _ => None
  }

  /** A mknod, like any call that makes a file, leaves what is already at its path alone. */
  ghost function IdealStep(s: Ideal, c: Call): Ideal
    requires WellFormed(s)
  {
    if c.HardLink? then
      if c.path in s.dir && c.name !in s.dir then s.(dir := s.dir[c.name := s.dir[c.path]]) else s
    else if c.Unlink? then
      if c.realOk then s.(dir := s.dir - {c.path}) else s
    else if c.Rename? then
      if c.realOk then s.(dir := Renamed(s.dir, c.path, c.target)) else s
    else if c.path in s.dir then
      s.(inodes := s.inodes[s.dir[c.path] := Edited(s.kept, s.inodes[s.dir[c.path]], c)])
    else if Made(c).Some? then
      s.(dir := s.dir[c.path := |s.inodes|], inodes := s.inodes + [Made(c).value])
    else s
  }

  lemma IdealStepWellFormed(s: Ideal, c: Call)
    requires WellFormed(s)
    ensures WellFormed(IdealStep(s, c))
  {
  }

  ghost function IdealRun(s: Ideal, calls: seq<Call>): (r: Ideal)
    requires WellFormed(s)
    ensures WellFormed(r)
    decreases |calls|
  {
    if calls == [] then s
    else
      IdealStepWellFormed(s, calls[0]);
      IdealRun(IdealStep(s, calls[0]), calls[1..])
  }

  // ----- Whether calls succeed -----

  /** Whether the hook reports success. */
  predicate HookSucceeds(disk: Disk, c: Call) {
    match c
    case Create(_, _, _, _) => true
    case HardLink(p, n) => p in disk.dir && n !in disk.dir
    case Mknod(p, _, _, mode, _, openOk, realOk, _) => openOk || (realOk && IsNodeKind(mode) && p !in disk.dir)
    case Unlink(p, ok) => ok && p in disk.dir
    case Rename(p, _, ok) => ok && p in disk.dir
    case _ => c.path in disk.dir
  }

  /** Whether a filesystem lets the call succeed: what exists cannot be made again, and an edit may be refused. */
  ghost predicate IdealSucceeds(s: Ideal, c: Call)
    requires WellFormed(s)
  {
    if c.HardLink? then c.path in s.dir && c.name !in s.dir
    else if c.Unlink? || c.Rename? then c.path in s.dir && c.realOk
    else if c.Create? then true
    else if c.Mknod? then c.path !in s.dir && Made(c).Some?
    else c.path in s.dir && !Refuses(s.inodes[s.dir[c.path]], c)
  }

  /** The calls that a hook answers with success although a filesystem refuses them. */
  predicate Overaccepts(w: World, c: Call) {
    if c.path in w.disk.dir then
      if c.Mknod? then c.openOk else Refuses(View(w, w.disk.dir[c.path]), c)
    else c.Mknod? && c.openOk && !IsNodeKind(c.mode)
  }

  // ----- Coupling -----

  /** Keeping attributes keeps none of none, and what was kept once is kept again. */
  ghost predicate Sane(kept: Xattrs -> Xattrs) {
    kept(map[]) == map[] && forall x :: kept(kept(x)) == kept(x)
  }

  /** Every entry of the side table belongs to a file that still has a link. */
  ghost predicate Clean(w: World) {
    forall k :: k in w.side ==> k in w.disk.dir.Values
  }

  /** Every entry is one that the side table can hold. */
  ghost predicate EntriesHold(w: World) {
    forall k :: k in w.side ==> Trimmed(w.limits, w.side[k]) == w.side[k]
  }

  /** The same paths, the same hard links, and on disk a type for every file. */
  ghost predicate SameShape(disk: Disk, s: Ideal) {
    && disk.dir.Keys == s.dir.Keys
    && (forall p, q :: p in s.dir && q in s.dir ==> (disk.dir[p] == disk.dir[q] <==> s.dir[p] == s.dir[q]))
    && (forall p :: p in s.dir ==> TypeBits(OnDisk(disk, disk.dir[p]).mode) != 0)
  }

  ghost predicate SameReports(w: World, s: Ideal)
    requires WellFormed(s)
  {
    forall p :: Report(w, p) == IdealReport(s, p)
  }

  ghost predicate Coupled(w: World, s: Ideal) {
    && w.limits.kept == s.kept && Sane(s.kept) && WellFormed(s) && SameShape(w.disk, s) && SameReports(w, s)
    && Clean(w) && EntriesHold(w)
  }

  // ----- The calls that make a difference -----

  /** Nobody has recorded the file, and the caller is not the one it seems to belong to. */
  predicate TakesOver(w: World, key: InodeKey, ids: Ids) {
    key !in w.side && ids != w.looker
  }

  /** The file's entry shows something that the file would not report without it. */
  predicate Matters(w: World, key: InodeKey) {
    View(w, key) != Patched(w.looker, OnDisk(w.disk, key), None)
  }

  /**
   A hook drops an entry before the real call. The entry is lost for good when the real call
   then fails and the file keeps its last link.
   */
  predicate Loses(w: World, c: Call) {
    match c
    case Unlink(p, ok) =>
      !ok && p in w.disk.dir && |Links(w.disk, w.disk.dir[p])| <= 1 && Matters(w, w.disk.dir[p])
    case Rename(p, t, ok) =>
      && t in w.disk.dir && (p in w.disk.dir ==> !ok && w.disk.dir[p] != w.disk.dir[t])
      && |Links(w.disk, w.disk.dir[t])| <= 1 && Matters(w, w.disk.dir[t])
    case _ => false
  }

  /** What an inode reports once its entry is replaced. */
  function Restamped(w: World, node: Node, entry: FakeInode): Inode {
    Patched(w.looker, node, Some(Trimmed(w.limits, entry)))
  }

  /**
   The calls on an existing inode that the hooks get wrong: a chown of a file with set-id bits
   or capabilities, or one that leaves an id to a caller who is not the owner; a chmod of a file
   whose reported type is not the one on disk; an attribute that a filesystem would not set
   but the hook does; and any of them recording a file for the first time for somebody else.
   */
  predicate EditDiverges(w: World, key: InodeKey, c: Call) {
    var n := View(w, key);
    match c
    case ChownFile(_, uid, gid, ids) =>
      || SansSetId(n.mode) != n.mode || CAPABILITY in n.xattrs
      || (key !in w.side && uid == ID_UNCHANGED && ids.uid != w.looker.uid)
      || (key !in w.side && gid == ID_UNCHANGED && ids.gid != w.looker.gid)
    case ChmodFile(_, _, _, ids) => TypeBits(n.mode) != TypeBits(OnDisk(w.disk, key).mode) || TakesOver(w, key, ids)
    case SetXattr(_, a, v, _, ids) =>
      || TakesOver(w, key, ids)
      || (Refuses(n, c) && w.limits.kept(n.xattrs[a := CappedValue(v)]) != n.xattrs)
    case RemoveXattr(_, _, ids) => TakesOver(w, key, ids)
    case _ => false
  }

  /**
   All the calls after which the hooks report something else: those, a file made for somebody
   else without being recorded, a mknod over a file that did not already report the new node,
   of a kind that mknod does not make, or whose recorded mode is not the one a filesystem
   gives, and a call that loses an entry.
   */
  predicate Diverges(w: World, c: Call) {
    if c.HardLink? || c.Unlink? || c.Rename? then Loses(w, c)
    else if c.path in w.disk.dir then
      var key := w.disk.dir[c.path];
      if c.Mknod? then c.openOk && View(w, key) != Restamped(w, OnDisk(w.disk, key), Stamp(c.mode, c.dev, c.ids))
      else EditDiverges(w, key, c)
    else
      match c
      case Create(_, _, _, ids) => ids != w.looker
      case Mknod(_, _, umask, mode, _, openOk, realOk, ids) =>
        if openOk then !IsNodeKind(mode) || ShownMode(w.limits, mode, umask) != NodeMode(mode, umask)
        else realOk && IsNodeKind(mode) && ids != w.looker
      case _ => false
  }

  /** The mode that a fresh fake node shows: the raw one, or the placeholder's when that cannot be recorded. */
  function ShownMode(l: Limits, mode: u32, umask: u32): u32 {
    if l.zeroIsUnset && mode == 0 then Placeholder(umask).mode else mode
  }

  lemma OnlyLink(disk: Disk, p: Path)
    requires p in disk.dir
    ensures |Links(disk, disk.dir[p])| <= 1 <==> forall q :: q in disk.dir && disk.dir[q] == disk.dir[p] ==> q == p
  {
    var links := Links(disk, disk.dir[p]);
    assert p in links;
    assert links == {p} + (links - {p});
    if forall q :: q in disk.dir && disk.dir[q] == disk.dir[p] ==> q == p {
      assert links == {p};
    } else {
      var q :| q in disk.dir && disk.dir[q] == disk.dir[p] && q != p;
      assert q in links - {p};
    }
  }

  lemma NewFileShape(disk: Disk, s: Ideal, p: Path, ino: InodeKey, node: Node, n: Inode)
    requires WellFormed(s) && SameShape(disk, s) && p !in s.dir && ino !in disk.dir.Values && TypeBits(node.mode) != 0
    ensures SameShape(Created(disk, p, ino, node), s.(dir := s.dir[p := |s.inodes|], inodes := s.inodes + [n]))
  {
  }

  // ----- Calls on an existing inode -----

  /** Calls that change the inode a path names. */
  predicate IsEdit(c: Call) {
    c.ChownFile? || c.ChmodFile? || c.SetXattr? || c.RemoveXattr?
  }

  /** Only the inode with the given key changes, and it still has a type. */
  ghost predicate ChangesOnly(w: World, u: World, key: InodeKey) {
    && u.limits == w.limits && u.looker == w.looker && u.disk.dir == w.disk.dir && u.side.Keys <= w.side.Keys + {key}
    && TypeBits(OnDisk(u.disk, key).mode) != 0 && EntriesHold(u)
    && (forall k :: k != key ==> View(u, k) == View(w, k) && OnDisk(u.disk, k) == OnDisk(w.disk, k))
  }

  /** A world whose entry for the key, if it has one, and whose file can be edited. */
  ghost predicate Editable(w: World, key: InodeKey) {
    Sane(w.limits.kept) && EntriesHold(w) && TypeBits(OnDisk(w.disk, key).mode) != 0
  }

  lemma ChownedEntry(w: World, c: Call, u: World)
    requires c.ChownFile? && c.path in w.disk.dir && Editable(w, w.disk.dir[c.path]) && u == Step(w, c)
    ensures ChangesOnly(w, u, w.disk.dir[c.path])
    ensures !EditDiverges(w, w.disk.dir[c.path], c) <==> View(u, w.disk.dir[c.path]) == Edited(w.limits.kept, View(w, w.disk.dir[c.path]), c)
  {
  }

  lemma ModedEntry(w: World, c: Call, u: World)
    requires c.ChmodFile? && c.path in w.disk.dir && Editable(w, w.disk.dir[c.path]) && u == Step(w, c)
    ensures ChangesOnly(w, u, w.disk.dir[c.path])
    ensures !EditDiverges(w, w.disk.dir[c.path], c) <==> View(u, w.disk.dir[c.path]) == Edited(w.limits.kept, View(w, w.disk.dir[c.path]), c)
  {
  }

  lemma AttributeSet(w: World, c: Call, u: World)
    requires c.SetXattr? && c.path in w.disk.dir && Editable(w, w.disk.dir[c.path]) && u == Step(w, c)
    ensures ChangesOnly(w, u, w.disk.dir[c.path])
    ensures !EditDiverges(w, w.disk.dir[c.path], c) <==> View(u, w.disk.dir[c.path]) == Edited(w.limits.kept, View(w, w.disk.dir[c.path]), c)
  {
  }

  lemma AttributeRemoved(w: World, c: Call, u: World)
    requires c.RemoveXattr? && c.path in w.disk.dir && Editable(w, w.disk.dir[c.path]) && u == Step(w, c)
    ensures ChangesOnly(w, u, w.disk.dir[c.path])
    ensures !EditDiverges(w, w.disk.dir[c.path], c) <==> View(u, w.disk.dir[c.path]) == Edited(w.limits.kept, View(w, w.disk.dir[c.path]), c)
  {
    var x := View(w, w.disk.dir[c.path]).xattrs;
    assert c.attr !in x ==> x - {c.attr} == x;
  }

  lemma EditedEntry(w: World, c: Call, u: World)
    requires IsEdit(c) && c.path in w.disk.dir && Editable(w, w.disk.dir[c.path]) && u == Step(w, c)
    ensures ChangesOnly(w, u, w.disk.dir[c.path])
    ensures !EditDiverges(w, w.disk.dir[c.path], c) <==> View(u, w.disk.dir[c.path]) == Edited(w.limits.kept, View(w, w.disk.dir[c.path]), c)
  {
    match c
    case ChownFile(_, _, _, _) => ChownedEntry(w, c, u);
    case ChmodFile(_, _, _, _) => ModedEntry(w, c, u);
    case SetXattr(_, _, _, _, _) => AttributeSet(w, c, u);
    case RemoveXattr(_, _, _) => AttributeRemoved(w, c, u);
  }

  lemma RestampedEntry(w: World, c: Call, u: World)
    requires c.Mknod? && c.openOk && c.path in w.disk.dir && Editable(w, w.disk.dir[c.path]) && u == Step(w, c)
    ensures ChangesOnly(w, u, w.disk.dir[c.path])
    ensures View(u, w.disk.dir[c.path]) == Restamped(w, OnDisk(w.disk, w.disk.dir[c.path]), Stamp(c.mode, c.dev, c.ids))
  {
  }

  /** Changing one inode keeps both sides coupled exactly when it changes alike. */
  lemma ChangeCoupled(w: World, s: Ideal, p: Path, u: World, v: Ideal, n: Inode)
    requires Coupled(w, s) && p in s.dir && ChangesOnly(w, u, w.disk.dir[p])
    requires v == s.(inodes := s.inodes[s.dir[p] := n])
    ensures WellFormed(v) && (n == View(u, w.disk.dir[p]) ==> Coupled(u, v))
    ensures n != View(u, w.disk.dir[p]) ==> !SameReports(u, v)
  {
    if n == View(u, w.disk.dir[p]) {
      forall q
        ensures Report(u, q) == IdealReport(v, q)
      {
        assert Report(w, q) == IdealReport(s, q);
      }
    } else {
      assert Report(u, p) != IdealReport(v, p);
    }
  }

  /** The step's verdict: the sides stay coupled, or their reports differ. */
  ghost predicate Verdict(w: World, s: Ideal, c: Call, u: World, v: Ideal) {
    WellFormed(v) && if Diverges(w, c) then !SameReports(u, v) else Coupled(u, v)
  }

  lemma EditExact(w: World, s: Ideal, c: Call)
    requires Coupled(w, s) && IsEdit(c) && c.path in w.disk.dir
    ensures Verdict(w, s, c, Step(w, c), IdealStep(s, c))
  {
    var u := Step(w, c);
    EditedEntry(w, c, u);
    assert Report(w, c.path) == IdealReport(s, c.path);
    ChangeCoupled(w, s, c.path, u, IdealStep(s, c), Edited(s.kept, View(w, w.disk.dir[c.path]), c));
  }

  lemma MknodExact(w: World, s: Ideal, c: Call)
    requires Coupled(w, s) && c.Mknod? && c.path in w.disk.dir
    ensures Verdict(w, s, c, Step(w, c), IdealStep(s, c))
  {
    var u := Step(w, c);
    assert IdealStep(s, c) == s;
    if c.openOk {
      RestampedEntry(w, c, u);
      assert Report(w, c.path) == IdealReport(s, c.path);
      ChangeCoupled(w, s, c.path, u, s, s.inodes[s.dir[c.path]]);
    } else {
      assert u == w;
    }
  }

  // ----- Calls that make a file -----

  /** The real inode that a call makes, if it makes one. */
  function RealMade(c: Call): Option<Node> {
    match c
    case Create(_, _, perms, _) => Some(Regular(perms))
    case Mknod(_, _, umask, mode, dev, openOk, realOk, _) =>
      if openOk then Some(Placeholder(umask))
      else if realOk && IsNodeKind(mode) then Some(Special(umask, mode, dev))
      else None
    case _ => None
  }

  lemma MadeTyped(c: Call)
    ensures RealMade(c).Some? ==> TypeBits(RealMade(c).value.mode) != 0
  {
  }

  /** A file that gets no entry belongs to whoever looks. */
  lemma UnrecordedView(w: World, c: Call, u: World)
    requires Creates(c) && (c.Mknod? ==> !c.openOk) && RealMade(c).Some? && c.path !in w.disk.dir && Sane(w.limits.kept)
    requires Legal(w.disk, c) && Clean(w) && EntriesHold(w) && u == Step(w, c)
    ensures u.limits == w.limits && u.looker == w.looker && u.disk == Created(w.disk, c.path, c.ino, RealMade(c).value)
    ensures u.side.Keys <= w.side.Keys + {c.ino} && EntriesHold(u)
    ensures !Diverges(w, c) <==> Made(c) == Some(View(u, c.ino))
    ensures forall k :: k != c.ino ==> View(u, k) == View(w, k)
  {
  }

  lemma StampedView(w: World, c: Call, u: World)
    requires c.Mknod? && c.openOk && c.path !in w.disk.dir && Sane(w.limits.kept)
    requires Legal(w.disk, c) && Clean(w) && EntriesHold(w) && u == Step(w, c)
    ensures u.limits == w.limits && u.looker == w.looker && u.disk == Created(w.disk, c.path, c.ino, RealMade(c).value)
    ensures u.side.Keys <= w.side.Keys + {c.ino} && EntriesHold(u)
    ensures !Diverges(w, c) <==> Made(c) == Some(View(u, c.ino))
    ensures forall k :: k != c.ino ==> View(u, k) == View(w, k)
  {
  }

  lemma NewFileView(w: World, c: Call, u: World)
    requires Creates(c) && RealMade(c).Some? && c.path !in w.disk.dir && Sane(w.limits.kept)
    requires Legal(w.disk, c) && Clean(w) && EntriesHold(w) && u == Step(w, c)
    ensures u.limits == w.limits && u.looker == w.looker && u.disk == Created(w.disk, c.path, c.ino, RealMade(c).value)
    ensures u.side.Keys <= w.side.Keys + {c.ino} && EntriesHold(u)
    ensures !Diverges(w, c) <==> Made(c) == Some(View(u, c.ino))
    ensures forall k :: k != c.ino ==> View(u, k) == View(w, k)
  {
    if c.Mknod? && c.openOk {
      StampedView(w, c, u);
    } else {
      UnrecordedView(w, c, u);
    }
  }

  lemma NewFileReports(w: World, s: Ideal, p: Path, ino: InodeKey, u: World, v: Ideal, n: Inode)
    requires WellFormed(s) && SameReports(w, s) && p !in w.disk.dir && p !in s.dir && ino !in w.disk.dir.Values
    requires u.disk.dir == w.disk.dir[p := ino] && View(u, ino) == n
    requires forall k :: k != ino ==> View(u, k) == View(w, k)
    requires v == s.(dir := s.dir[p := |s.inodes|], inodes := s.inodes + [n])
    ensures WellFormed(v) && SameReports(u, v)
  {
    forall q
      ensures q in v.dir ==> v.dir[q] < |v.inodes|
      ensures Report(u, q) == if q in v.dir then Some(v.inodes[v.dir[q]]) else None
    {
      assert Report(w, q) == IdealReport(s, q);
      if q in w.disk.dir {
        assert w.disk.dir[q] in w.disk.dir.Values;
      }
    }
  }

  lemma CreateCoupled(w: World, s: Ideal, c: Call)
    requires Coupled(w, s) && Creates(c) && RealMade(c).Some? && c.path !in w.disk.dir && Legal(w.disk, c) && !Diverges(w, c)
    ensures Coupled(Step(w, c), IdealStep(s, c))
  {
    var u, v := Step(w, c), IdealStep(s, c);
    NewFileView(w, c, u);
    MadeTyped(c);
    NewFileShape(w.disk, s, c.path, c.ino, RealMade(c).value, Made(c).value);
    NewFileReports(w, s, c.path, c.ino, u, v, Made(c).value);
    forall k | k in w.side
      ensures k in u.disk.dir.Values
    {
      var q :| q in w.disk.dir && w.disk.dir[q] == k;
      assert u.disk.dir[q] == k;
    }
    assert u.disk.dir[c.path] == c.ino;
  }

  lemma CreateExact(w: World, s: Ideal, c: Call)
    requires Coupled(w, s) && Creates(c) && RealMade(c).Some? && c.path !in w.disk.dir && Legal(w.disk, c)
    ensures Verdict(w, s, c, Step(w, c), IdealStep(s, c))
  {
    var u, v := Step(w, c), IdealStep(s, c);
    IdealStepWellFormed(s, c);
    if Diverges(w, c) {
      NewFileView(w, c, u);
      assert Report(u, c.path) == Some(View(u, c.ino));
      assert IdealReport(v, c.path) == Made(c);
    } else {
      CreateCoupled(w, s, c);
    }
  }

  // ----- Calls that change links -----

  /** Only an entry is dropped: that shows exactly when the entry matters. */
  lemma DropAlone(w: World, s: Ideal, p: Path, u: World)
    requires Coupled(w, s) && p in w.disk.dir && u == w.(side := w.side - {w.disk.dir[p]})
    ensures if Matters(w, w.disk.dir[p]) then !SameReports(u, s) else Coupled(u, s)
  {
    var n := s.inodes[s.dir[p]];
    assert Report(w, p) == IdealReport(s, p);
    assert s == s.(inodes := s.inodes[s.dir[p] := n]);
    ChangeCoupled(w, s, p, u, s, n);
  }

  lemma MovedReport(w: World, s: Ideal, u: World, v: Ideal, p: Path, q: Path)
    requires WellFormed(s) && Report(w, p) == IdealReport(s, p)
    requires p in s.dir && p in w.disk.dir && q in v.dir && q in u.disk.dir
    requires w.disk.dir[p] == u.disk.dir[q] && s.dir[p] == v.dir[q]
    requires v.inodes == s.inodes && u.disk.nodes == w.disk.nodes && u.looker == w.looker
    requires Lookup(u.side, u.disk.dir[q]) == Lookup(w.side, u.disk.dir[q])
    ensures v.dir[q] < |v.inodes| && Report(u, q) == Some(v.inodes[v.dir[q]])
  {
  }

  /** Every link on both sides was some link before, of the same inodes. */
  ghost predicate LinksMoved(was: map<Path, InodeKey>, wasIdeal: map<Path, nat>, now: map<Path, InodeKey>, ideal: map<Path, nat>) {
    && now.Keys == ideal.Keys
    && forall q :: q in now ==> exists p :: p in was && p in wasIdeal && was[p] == now[q] && wasIdeal[p] == ideal[q]
  }

  lemma MovedReports(w: World, s: Ideal, u: World, v: Ideal)
    requires WellFormed(s) && SameReports(w, s) && LinksMoved(w.disk.dir, s.dir, u.disk.dir, v.dir)
    requires v.inodes == s.inodes && u.disk.nodes == w.disk.nodes && u.looker == w.looker
    requires forall q :: q in u.disk.dir ==> Lookup(u.side, u.disk.dir[q]) == Lookup(w.side, u.disk.dir[q])
    ensures WellFormed(v) && SameReports(u, v)
  {
    forall q | q in v.dir
      ensures v.dir[q] < |v.inodes| && Report(u, q) == Some(v.inodes[v.dir[q]])
    {
      var p :| p in s.dir && p in w.disk.dir && w.disk.dir[p] == u.disk.dir[q] && s.dir[p] == v.dir[q];
      assert Report(w, p) == IdealReport(s, p);
      MovedReport(w, s, u, v, p, q);
    }
    assert WellFormed(v);
  }

  /** The entries that remain are those of inodes that still have a link. */
  ghost predicate EntriesKept(w: World, u: World) {
    u.side == map k | k in w.side && k in u.disk.dir.Values :: w.side[k]
  }

  lemma EntriesStay(w: World, u: World)
    requires EntriesKept(w, u) && EntriesHold(w) && u.limits == w.limits
    ensures Clean(u) && EntriesHold(u)
    ensures forall q :: q in u.disk.dir ==> Lookup(u.side, u.disk.dir[q]) == Lookup(w.side, u.disk.dir[q])
  {
    forall q | q in u.disk.dir
      ensures Lookup(u.side, u.disk.dir[q]) == Lookup(w.side, u.disk.dir[q])
    {
      assert u.disk.dir[q] in u.disk.dir.Values;
    }
  }

  /** Directory changes on both sides keep the coupling when the entries they leave linkless are dropped. */
  lemma MoveCoupled(w: World, s: Ideal, u: World, v: Ideal)
    requires Coupled(w, s) && v.inodes == s.inodes && u.disk.nodes == w.disk.nodes
    requires u.limits == w.limits && u.looker == w.looker && v.kept == s.kept
    requires SameShape(u.disk, v) && LinksMoved(w.disk.dir, s.dir, u.disk.dir, v.dir) && EntriesKept(w, u)
    ensures Coupled(u, v)
  {
    EntriesStay(w, u);
    MovedReports(w, s, u, v);
  }

  lemma LinkShape(disk: Disk, s: Ideal, p: Path, n: Path)
    requires WellFormed(s) && SameShape(disk, s) && p in s.dir && n !in s.dir
    ensures SameShape(disk.(dir := disk.dir[n := disk.dir[p]]), s.(dir := s.dir[n := s.dir[p]]))
    ensures LinksMoved(disk.dir, s.dir, disk.dir[n := disk.dir[p]], s.dir[n := s.dir[p]])
  {
    var now, ideal := disk.dir[n := disk.dir[p]], s.dir[n := s.dir[p]];
    forall q | q in now
      ensures exists o :: o in disk.dir && o in s.dir && disk.dir[o] == now[q] && s.dir[o] == ideal[q]
    {
      var o := if q == n then p else q;
      assert o in disk.dir && o in s.dir && disk.dir[o] == now[q] && s.dir[o] == ideal[q];
    }
  }

  /** A new link leaves every inode linked that was. */
  lemma LinkDrop(w: World, c: Call, u: World)
    requires c.HardLink? && c.path in w.disk.dir && c.name !in w.disk.dir && Clean(w) && u == Step(w, c)
    ensures EntriesKept(w, u)
  {
    forall k | k in w.side
      ensures k in u.disk.dir.Values
    {
      var q :| q in w.disk.dir && w.disk.dir[q] == k;
      assert u.disk.dir[q] == k;
    }
  }

  lemma LinkCoupled(w: World, s: Ideal, c: Call)
    requires Coupled(w, s) && c.HardLink?
    ensures Coupled(Step(w, c), IdealStep(s, c))
  {
    if c.path in s.dir && c.name !in s.dir {
      LinkShape(w.disk, s, c.path, c.name);
      LinkDrop(w, c, Step(w, c));
      MoveCoupled(w, s, Step(w, c), IdealStep(s, c));
    }
  }

  lemma UnlinkDrop(w: World, c: Call, u: World)
    requires c.Unlink? && c.realOk && c.path in w.disk.dir && u == Step(w, c) && Clean(w)
    ensures EntriesKept(w, u)
  {
    OnlyLink(w.disk, c.path);
    if |Links(w.disk, w.disk.dir[c.path])| > 1 {
      var q :| q in w.disk.dir && w.disk.dir[q] == w.disk.dir[c.path] && q != c.path;
      assert u.disk.dir[q] == w.disk.dir[c.path];
    }
    forall k | k in w.side && k != w.disk.dir[c.path]
      ensures k in u.disk.dir.Values
    {
      var q :| q in w.disk.dir && w.disk.dir[q] == k;
      assert u.disk.dir[q] == k;
    }
  }

  lemma UnlinkShape(disk: Disk, s: Ideal, p: Path)
    requires WellFormed(s) && SameShape(disk, s)
    ensures SameShape(disk.(dir := disk.dir - {p}), s.(dir := s.dir - {p}))
    ensures LinksMoved(disk.dir, s.dir, disk.dir - {p}, s.dir - {p})
  {
  }

  lemma FailedUnlink(w: World, c: Call)
    requires c.Unlink? && !(c.realOk && c.path in w.disk.dir)
    ensures
      Step(w, c) == if c.path in w.disk.dir && |Links(w.disk, w.disk.dir[c.path])| <= 1
                    then w.(side := w.side - {w.disk.dir[c.path]}) else w
  {
    assert c.path !in w.disk.dir ==> w.disk.dir - {c.path} == w.disk.dir;
  }

  lemma UnlinkExact(w: World, s: Ideal, c: Call)
    requires Coupled(w, s) && c.Unlink?
    ensures Verdict(w, s, c, Step(w, c), IdealStep(s, c))
  {
    var u, v := Step(w, c), IdealStep(s, c);
    if c.realOk && c.path in w.disk.dir {
      UnlinkDrop(w, c, u);
      UnlinkShape(w.disk, s, c.path);
      MoveCoupled(w, s, u, v);
    } else {
      FailedUnlink(w, c);
      assert c.path !in s.dir ==> s.dir - {c.path} == s.dir;
      assert v == s;
      if c.path in w.disk.dir && |Links(w.disk, w.disk.dir[c.path])| <= 1 {
        DropAlone(w, s, c.path, u);
      }
    }
  }

  lemma RenameShape(disk: Disk, s: Ideal, p: Path, t: Path)
    requires WellFormed(s) && SameShape(disk, s)
    ensures SameShape(disk.(dir := Renamed(disk.dir, p, t)), s.(dir := Renamed(s.dir, p, t)))
  {
  }

  lemma RenameMoves(was: map<Path, InodeKey>, wasIdeal: map<Path, nat>, p: Path, t: Path)
    requires was.Keys == wasIdeal.Keys && p in was
    requires t in was ==> was[t] != was[p] && wasIdeal[t] != wasIdeal[p]
    ensures LinksMoved(was, wasIdeal, Renamed(was, p, t), Renamed(wasIdeal, p, t))
  {
    var now, ideal := (was - {p})[t := was[p]], (wasIdeal - {p})[t := wasIdeal[p]];
    forall q | q in now
      ensures exists o :: o in was && o in wasIdeal && was[o] == now[q] && wasIdeal[o] == ideal[q]
    {
      var o := if q == t then p else q;
      assert o in was && o in wasIdeal && was[o] == now[q] && wasIdeal[o] == ideal[q];
    }
  }

  /** After a rename, an inode is linked exactly when it had a link other than the target. */
  lemma RenamedValues(disk: Disk, p: Path, t: Path, dir: map<Path, InodeKey>)
    requires p in disk.dir && dir == Renamed(disk.dir, p, t)
    requires t in disk.dir ==> disk.dir[t] != disk.dir[p]
    ensures forall k :: k in dir.Values <==> exists q :: q in disk.dir && q != t && disk.dir[q] == k
  {
    forall q | q in disk.dir && q != t
      ensures disk.dir[q] in dir.Values
    {
      assert dir[if q == p then t else q] == disk.dir[q];
    }
  }

  lemma RenameDrop(w: World, c: Call, u: World)
    requires c.Rename? && c.realOk && c.path in w.disk.dir && u == Step(w, c) && Clean(w)
    requires c.target in w.disk.dir ==> w.disk.dir[c.target] != w.disk.dir[c.path]
    requires forall k :: k in u.disk.dir.Values <==> exists q :: q in w.disk.dir && q != c.target && w.disk.dir[q] == k
    ensures EntriesKept(w, u)
  {
    if c.target in w.disk.dir {
      OnlyLink(w.disk, c.target);
    }
    forall k | k in w.side && (c.target in w.disk.dir ==> k != w.disk.dir[c.target])
      ensures k in u.disk.dir.Values
    {
      var q :| q in w.disk.dir && w.disk.dir[q] == k;
      assert q != c.target;
    }
  }

  /** The real rename does something: both paths name different files, or there is nothing at the target. */
  predicate Moves(w: World, c: Call)
    requires c.Rename?
  {
    c.realOk && c.path in w.disk.dir && (c.target in w.disk.dir ==> w.disk.dir[c.target] != w.disk.dir[c.path])
  }

  /** The rename's hook drops the entry of the file at the target. */
  predicate Overwrites(w: World, c: Call)
    requires c.Rename?
  {
    && c.target in w.disk.dir && (c.path in w.disk.dir ==> w.disk.dir[c.target] != w.disk.dir[c.path])
    && |Links(w.disk, w.disk.dir[c.target])| <= 1
  }

  lemma FailedRename(w: World, c: Call)
    requires c.Rename? && !Moves(w, c)
    ensures Step(w, c) == if Overwrites(w, c) then w.(side := w.side - {w.disk.dir[c.target]}) else w
  {
  }

  lemma MovingRename(w: World, s: Ideal, c: Call)
    requires Coupled(w, s) && c.Rename? && Moves(w, c)
    ensures Coupled(Step(w, c), IdealStep(s, c))
  {
    var u, v := Step(w, c), IdealStep(s, c);
    RenameShape(w.disk, s, c.path, c.target);
    RenameMoves(w.disk.dir, s.dir, c.path, c.target);
    RenamedValues(w.disk, c.path, c.target, u.disk.dir);
    RenameDrop(w, c, u);
    MoveCoupled(w, s, u, v);
  }

  lemma RenameExact(w: World, s: Ideal, c: Call)
    requires Coupled(w, s) && c.Rename?
    ensures Verdict(w, s, c, Step(w, c), IdealStep(s, c))
  {
    if Moves(w, c) {
      MovingRename(w, s, c);
    } else {
      FailedRename(w, c);
      assert IdealStep(s, c) == s;
      if Overwrites(w, c) {
        DropAlone(w, s, c.target, Step(w, c));
      }
    }
  }

  lemma LinkExact(w: World, s: Ideal, c: Call)
    requires Coupled(w, s) && c.HardLink?
    ensures Verdict(w, s, c, Step(w, c), IdealStep(s, c))
  {
    LinkCoupled(w, s, c);
  }

  // ----- One step -----

  /**
   A call leaves the reports of the hooks and of the ideal filesystem equal exactly when it is
   none of those that diverge.
   */
  lemma StepExact(w: World, s: Ideal, c: Call)
    requires Coupled(w, s) && Legal(w.disk, c)
    ensures WellFormed(IdealStep(s, c))
    ensures SameReports(Step(w, c), IdealStep(s, c)) <==> !Diverges(w, c)
    ensures !Diverges(w, c) ==> Coupled(Step(w, c), IdealStep(s, c))
  {
    if c.HardLink? {
      LinkExact(w, s, c);
    } else if c.Unlink? {
      UnlinkExact(w, s, c);
    } else if c.Rename? {
      RenameExact(w, s, c);
    } else if IsEdit(c) && c.path in w.disk.dir {
      EditExact(w, s, c);
    } else if c.Mknod? && c.path in w.disk.dir {
      MknodExact(w, s, c);
    } else if Creates(c) && RealMade(c).Some? && c.path !in w.disk.dir {
      CreateExact(w, s, c);
    } else {
      NothingHappens(w, s, c);
    }
  }

  lemma NothingHappens(w: World, s: Ideal, c: Call)
    requires Coupled(w, s) && !c.HardLink? && !c.Unlink? && !c.Rename?
    requires if c.path in w.disk.dir then c.Create? else IsEdit(c) || (Creates(c) && RealMade(c).None?)
    ensures Step(w, c) == w && IdealStep(s, c) == s && !Diverges(w, c)
  {
  }

  /** A hook reports success or failure as a filesystem would, exactly unless it accepts too much. */
  lemma AnswersExact(w: World, s: Ideal, c: Call)
    requires Coupled(w, s)
    ensures (HookSucceeds(w.disk, c) <==> IdealSucceeds(s, c)) <==> !Overaccepts(w, c)
  {
    assert Report(w, c.path) == IdealReport(s, c.path);
  }

  // ----- Runs -----

  /** Every step is one that a filesystem can take. */
  ghost predicate AllLegal(w: World, calls: seq<Call>)
    decreases |calls|
  {
    calls != [] ==> Legal(w.disk, calls[0]) && AllLegal(Step(w, calls[0]), calls[1..])
  }

  ghost predicate NoneDiverges(w: World, calls: seq<Call>)
    decreases |calls|
  {
    calls != [] ==> !Diverges(w, calls[0]) && NoneDiverges(Step(w, calls[0]), calls[1..])
  }

  /** The hooks report what the ideal filesystem does now and after every step. */
  ghost predicate AlwaysSame(w: World, s: Ideal, calls: seq<Call>)
    requires WellFormed(s)
    decreases |calls|
  {
    && SameReports(w, s)
    && (calls != [] ==>
          (IdealStepWellFormed(s, calls[0]); AlwaysSame(Step(w, calls[0]), IdealStep(s, calls[0]), calls[1..])))
  }

  function FreshWorld(l: Limits, looker: Ids): World {
    World(l, looker, Disk(map[], map[]), map[])
  }

  function FreshIdeal(l: Limits): Ideal {
    Ideal(l.kept, map[], [])
  }

  lemma {:induction false} RunCoupled(w: World, s: Ideal, calls: seq<Call>)
    requires Coupled(w, s) && AllLegal(w, calls)
    ensures AlwaysSame(w, s, calls) <==> NoneDiverges(w, calls)
    ensures NoneDiverges(w, calls) ==> Coupled(Run(w, calls), IdealRun(s, calls))
    decreases |calls|
  {
    if calls != [] {
      StepExact(w, s, calls[0]);
      if !Diverges(w, calls[0]) {
        RunCoupled(Step(w, calls[0]), IdealStep(s, calls[0]), calls[1..]);
      }
    }
  }

  /**
   Throughout a run the overlay reports to a looker at every path what the ideal filesystem
   does, exactly when no call diverges: metadata follows renames and the remaining hard links,
   and ends with the file.
   */
  lemma OverlayIsIdeal(l: Limits, looker: Ids, calls: seq<Call>)
    requires Sane(l.kept) && AllLegal(FreshWorld(l, looker), calls)
    ensures AlwaysSame(FreshWorld(l, looker), FreshIdeal(l), calls) <==> NoneDiverges(FreshWorld(l, looker), calls)
    ensures NoneDiverges(FreshWorld(l, looker), calls) ==>
              SameReports(Run(FreshWorld(l, looker), calls), IdealRun(FreshIdeal(l), calls))
  {
    RunCoupled(FreshWorld(l, looker), FreshIdeal(l), calls);
  }

  lemma StepClean(w: World, c: Call)
    requires Clean(w) && Legal(w.disk, c) && (c.Unlink? || c.Rename? ==> !c.realOk)
    ensures Clean(Step(w, c))
  {
    forall k | k in w.disk.dir.Values
      ensures k in DiskStep(w.disk, c).dir.Values
    {
      var q :| q in w.disk.dir && w.disk.dir[q] == k;
      assert DiskStep(w.disk, c).dir[q] == k;
    }
    if Creates(c) && c.path !in w.disk.dir && RealMade(c).Some? {
      assert DiskStep(w.disk, c).dir[c.path] == c.ino;
    }
  }

  /** After every run, diverging calls or not, no entry is left of an inode without links. */
  lemma {:induction false} RunClean(w: World, calls: seq<Call>)
    requires Clean(w) && AllLegal(w, calls)
    ensures Clean(Run(w, calls))
    decreases |calls|
  {
    if calls != [] {
      var c := calls[0];
      if c.Unlink? && c.realOk {
        if c.path in w.disk.dir {
          UnlinkDrop(w, c, Step(w, c));
        } else {
          FailedUnlink(w, c);
        }
      } else if c.Rename? && c.realOk {
        if Moves(w, c) {
          RenamedValues(w.disk, c.path, c.target, Step(w, c).disk.dir);
          RenameDrop(w, c, Step(w, c));
        } else {
          FailedRename(w, c);
        }
      } else {
        StepClean(w, c);
      }
      RunClean(Step(w, c), calls[1..]);
    }
  }

  /**
   A file created after any run, whatever went wrong in it, reports nothing of the files that
   had its inode number before.
   */
  lemma RecycledNumberStartsClean(l: Limits, looker: Ids, calls: seq<Call>, c: Call)
    requires AllLegal(FreshWorld(l, looker), calls) && c.Create?
    requires
      var disk := Run(FreshWorld(l, looker), calls).disk;
      c.path !in disk.dir && Legal(disk, c)
    ensures
      Report(Step(Run(FreshWorld(l, looker), calls), c), c.path)
      == Some(Patched(Run(FreshWorld(l, looker), calls).looker, Regular(c.perms), None))
  {
    RunClean(FreshWorld(l, looker), calls);
    assert c.ino !in Run(FreshWorld(l, looker), calls).side;
  }

  /** A world with one file, made by the looker. */
  function OneFile(me: Ids): World {
    Step(FreshWorld(NoLimits(), me), Create("f", (1, 1), 0x1ED, me))
  }

  lemma OneFileReports(me: Ids)
    ensures OneFile(me).disk.dir == map["f" := (1, 1)]
    ensures View(OneFile(me), (1, 1)) == Inode(me, 0x81ED, 0, map[])
  {
  }

  /** The looker alone is enough: an attribute that is too long is cut and set. */
  lemma LongAttributeDiverges(me: Ids)
    ensures Diverges(OneFile(me), SetXattr("f", [97], seq(MAX_XATTR + 1, _ => 0), Either, me))
  {
    OneFileReports(me);
    var long: Bytes := seq(MAX_XATTR + 1, _ => 0);
    var x: Xattrs := map[];
    assert [97] in x[[97] := CappedValue(long)];
  }

  /** So is a mknod without a kind, whose fake node shows no type. */
  lemma UntypedNodeDiverges(me: Ids)
    ensures Diverges(OneFile(me), Mknod("n", (1, 2), 0, 0x1A4, 0, true, false, me))
  {
    OneFileReports(me);
  }

  /** And a chown of a file with its set-user-id bit. */
  lemma SetIdDiverges(me: Ids)
    ensures Diverges(Step(OneFile(me), ChmodFile("f", 0x9ED, true, me)), ChownFile("f", 1, 1, me))
  {
    OneFileReports(me);
    var w := Step(OneFile(me), ChmodFile("f", 0x9ED, true, me));
    assert w.disk.dir["f"] == (1, 1);
    ModedView(OneFile(me), w, "f", 0x9ED, me);
    assert SansSetId(0x89ED) == 0x81ED;
  }

  lemma ModedView(w: World, u: World, p: Path, mode: u32, ids: Ids)
    requires p in w.disk.dir && u == Step(w, ChmodFile(p, mode, true, ids)) && !w.limits.zeroIsUnset
    ensures View(u, w.disk.dir[p]).mode == ComposeMode(OnDisk(w.disk, w.disk.dir[p]).mode, mode)
  {
  }

  /**
   A chmod keeps the reported file type exactly when that type is the one on disk: a fake
   device loses its type.
   */
  lemma ChmodKeepsType(w: World, c: Call)
    requires c.ChmodFile? && c.path in w.disk.dir && TypeBits(OnDisk(w.disk, w.disk.dir[c.path]).mode) != 0
    ensures
      var before, after := Report(w, c.path), Report(Step(w, c), c.path);
      && before.Some? && after.Some?
      && (TypeBits(after.value.mode) == TypeBits(before.value.mode)
          <==> TypeBits(before.value.mode) == TypeBits(OnDisk(w.disk, w.disk.dir[c.path]).mode))
  {
  }

  /**
   After a chmod a file reports the permission bits asked for under the type on disk, and so it
   is on disk if the real call succeeds.
   */
  lemma ChmodReports(w: World, c: Call)
    requires c.ChmodFile? && c.path in w.disk.dir
    requires w.limits.zeroIsUnset ==> OnDisk(w.disk, w.disk.dir[c.path]).mode / 0x1000 != 0
    ensures
      var before, after := OnDisk(w.disk, w.disk.dir[c.path]).mode, Report(Step(w, c), c.path);
      after.Some? && after.value.mode % 0x1000 == c.mode % 0x1000 && after.value.mode / 0x1000 == before / 0x1000
    ensures
      var before, after := OnDisk(w.disk, w.disk.dir[c.path]).mode, OnDisk(Step(w, c).disk, w.disk.dir[c.path]).mode;
      if c.realOk then after % 0x1000 == c.mode % 0x1000 && after / 0x1000 == before / 0x1000 else after == before
  {
  }

  /**
   After a mknod that opens a new placeholder its path reports the caller's ids, the mode as
   given and, for character and block devices only, the device number.
   */
  lemma MknodReports(w: World, c: Call)
    requires c.Mknod? && c.openOk && c.path !in w.disk.dir && !w.limits.zeroIsUnset && w.limits.kept(map[]) == map[]
    ensures
      Report(Step(w, c), c.path)
      == Some(Inode(c.ids, c.mode, if c.mode / 0x1000 % 16 == 2 || c.mode / 0x1000 % 16 == 6 then c.dev else 0, map[]))
    ensures OnDisk(Step(w, c).disk, c.ino) == Placeholder(c.umask)
  {
    DevicesByNumber(c.mode);
  }

  lemma DevicesByNumber(mode: u32)
    ensures IsDevice(mode) <==> mode / 0x1000 % 16 == 2 || mode / 0x1000 % 16 == 6
  {
    KindNumber(mode);
  }

  /** The placeholder is a regular file with mode 0644 less what the umask takes away. */
  lemma PlaceholderBits(umask: u32, i: nat)
    ensures Placeholder(umask).mode / 0x1000 == 8 && Placeholder(umask).rdev == 0
    ensures Bit(Placeholder(umask).mode % 0x1000, i) <==> Bit(0x1A4, i) && !Bit(umask % 0x200, i)
  {
    WithoutBits(0x1A4, umask % UMASK_LIMIT, i);
  }

  /** When the placeholder cannot be opened, the real node shows with the looker's ids, its own mode and device number. */
  lemma RealMknodReports(w: World, c: Call)
    requires c.Mknod? && !c.openOk && c.realOk && c.path !in w.disk.dir && c.ino !in w.side
    requires c.mode / 0x1000 % 16 in {0, 1, 2, 6, 8, 12}
    ensures
      Report(Step(w, c), c.path)
      == Some(Inode(w.looker, NodeMode(c.mode, c.umask),
                    if c.mode / 0x1000 % 16 == 2 || c.mode / 0x1000 % 16 == 6 then c.dev else 0, map[]))
  {
    NodeKinds(c.mode, c.umask, 0);
    DevicesByNumber(c.mode);
  }

  /** After setting or removing an attribute the file reports just that change, of a value cut to 65536 bytes. */
  lemma XattrReports(w: World, c: Call)
    requires (c.SetXattr? || c.RemoveXattr?) && c.path in w.disk.dir && w.limits == NoLimits()
    ensures
      var before, after := View(w, w.disk.dir[c.path]).xattrs, Report(Step(w, c), c.path);
      && after.Some?
      && after.value.xattrs
         == if c.SetXattr? then before[c.attr := if |c.value| > 65536 then c.value[..65536] else c.value] else before - {c.attr}
  {
  }

  /** What a filesystem refuses to do to attributes, by number. */
  lemma RefusedEdits(n: Inode, c: Call)
    ensures
      Refuses(n, c) <==>
        || (c.SetXattr? && (|c.value| > 65536 || (c.flag.CreateOnly? && c.attr in n.xattrs) || (c.flag.ReplaceOnly? && c.attr !in n.xattrs)))
        || (c.RemoveXattr? && c.attr !in n.xattrs)
  {
  }

  /**
   A mknod that opens an existing file replaces what every link of the file reports by the new
   node and answers that it succeeded, where a filesystem refuses and changes nothing. The
   reports stay equal exactly when the file reported that node before.
   */
  lemma MknodOverwrites(w: World, s: Ideal, c: Call)
    requires Coupled(w, s) && c.Mknod? && c.openOk && c.path in w.disk.dir
    ensures HookSucceeds(w.disk, c) && !IdealSucceeds(s, c) && IdealStep(s, c) == s
    ensures
      var key := w.disk.dir[c.path];
      var stamped := Some(Restamped(w, OnDisk(w.disk, key), Stamp(c.mode, c.dev, c.ids)));
      && (forall p :: p in w.disk.dir && w.disk.dir[p] == key ==> Report(Step(w, c), p) == stamped)
      && (SameReports(Step(w, c), s) <==> Report(w, c.path) == stamped)
  {
    MknodExact(w, s, c);
    RestampedEntry(w, c, Step(w, c));
    RestampedLinks(w, c, Step(w, c));
    assert Report(w, c.path) == IdealReport(s, c.path);
  }

  lemma RestampedLinks(w: World, c: Call, u: World)
    requires c.Mknod? && c.openOk && c.path in w.disk.dir && ChangesOnly(w, u, w.disk.dir[c.path])
    requires View(u, w.disk.dir[c.path]) == Restamped(w, OnDisk(w.disk, w.disk.dir[c.path]), Stamp(c.mode, c.dev, c.ids))
    ensures forall p :: p in w.disk.dir && w.disk.dir[p] == w.disk.dir[c.path] ==>
              Report(u, p) == Some(Restamped(w, OnDisk(w.disk, w.disk.dir[c.path]), Stamp(c.mode, c.dev, c.ids)))
  {
  }
}
