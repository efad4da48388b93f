/** The plain in-process inode map that every other backend has to agree with. */
module State {
  import opened Base

  type InodeMap = map<InodeKey, FakeInode>

  function Lookup(m: InodeMap, key: InodeKey): Option<FakeInode> {
    if key in m then Some(m[key]) else None
  }

  /** An entry after a chown: each id changes unless it is the sentinel. */
  function WithOwner(inode: FakeInode, uid: u32, gid: u32): FakeInode {
    inode.(uid := Chosen(uid, inode.uid), gid := Chosen(gid, inode.gid))
  }

  /** The entry a chown leaves: the existing one, or a new one owned by the defaults, re-owned. */
  function Chowned(m: InodeMap, key: InodeKey, uid: u32, gid: u32, defaultUid: u32, defaultGid: u32): FakeInode {
    WithOwner(Lookup(m, key).GetOr(NewInode(defaultUid, defaultGid)), uid, gid)
  }

  // ----- Requests that any backend serves -----

  datatype Op =
    | Get(key: InodeKey)
    | Chown(key: InodeKey, uid: u32, gid: u32, defaultUid: u32, defaultGid: u32)
    | Put(key: InodeKey, inode: FakeInode)
    | Remove(key: InodeKey)

  datatype Reply = Done | Entry(inode: Option<FakeInode>) | Removed(present: bool)

  function ApplyMap(m: InodeMap, op: Op): InodeMap {
    match op
    case Get(_) => m
    case Chown(k, u, g, du, dg) => m[k := Chowned(m, k, u, g, du, dg)]
    case Put(k, inode) => m[k := inode]
    case Remove(k) => m - {k}
  }

  function AnswerMap(m: InodeMap, op: Op): Reply {
    match op
    case Get(k) => Entry(Lookup(m, k))
    case Remove(k) => Removed(k in m)
    case _ => Done
  }

  /** A chown sets each id except one given as all ones, on the existing entry or a new one with the defaults. */
  lemma ChownStores(m: InodeMap, k: InodeKey, u: u32, g: u32, du: u32, dg: u32)
    ensures
      var was := if k in m then m[k] else FakeInode(du, dg, None, None, map[]);
      ApplyMap(m, Chown(k, u, g, du, dg))
      == m[k := FakeInode(if u == 0xFFFF_FFFF then was.uid else u, if g == 0xFFFF_FFFF then was.gid else g,
                          was.mode, was.rdev, was.xattrs)]
  {
  }

  /** The other requests change at most their own key, and answer what was there before. */
  lemma RequestsStore(m: InodeMap, op: Op, k: InodeKey)
    requires !op.Chown?
    ensures
      var after := ApplyMap(m, op);
      && (op.Get? || k != op.key ==> (k in after <==> k in m) && (k in m ==> after[k] == m[k]))
      && (op.Put? ==> op.key in after && after[op.key] == op.inode && AnswerMap(m, op) == Done)
      && (op.Remove? ==> op.key !in after && AnswerMap(m, op) == Removed(op.key in m))
      && (op.Get? ==> AnswerMap(m, op) == Entry(if op.key in m then Some(m[op.key]) else None))
  {
  }

  function RunMap(m: InodeMap, ops: seq<Op>): InodeMap
    decreases |ops|
  {
    if ops == [] then m else RunMap(ApplyMap(m, ops[0]), ops[1..])
  }

  function AnswersMap(m: InodeMap, ops: seq<Op>): seq<Reply>
    decreases |ops|
  {
    if ops == [] then [] else [AnswerMap(m, ops[0])] + AnswersMap(ApplyMap(m, ops[0]), ops[1..])
  }

  /** The map behind a daemon or a single process. */
  class FakeRootState {
    var inodeMap: InodeMap
    var currentUid: u32
    var currentGid: u32

    constructor ()
      ensures inodeMap == map[] && currentUid == 0 && currentGid == 0
    {
      inodeMap := map[];
      currentUid, currentGid := 0, 0;
    }

    method SetCurrent(uid: u32, gid: u32)
      modifies this`currentUid, this`currentGid
      ensures currentUid == uid && currentGid == gid
    {
      currentUid := uid;
      currentGid := gid;
    }

    method SetInode(key: InodeKey, inode: FakeInode)
      modifies this`inodeMap
      ensures inodeMap == ApplyMap(old(inodeMap), Put(key, inode))
    {
      inodeMap := inodeMap[key := inode];
    }

    method GetInode(key: InodeKey) returns (r: Option<FakeInode>)
      ensures r == Lookup(inodeMap, key)
    {
      if key in inodeMap {
        r := Some(inodeMap[key]);
      } else {
        r := None;
      }
    }

    method RemoveInode(key: InodeKey) returns (r: Option<FakeInode>)
      modifies this`inodeMap
      ensures inodeMap == ApplyMap(old(inodeMap), Remove(key))
      ensures r == Lookup(old(inodeMap), key)
    {
      r := GetInode(key);
      inodeMap := inodeMap - {key};
    }

    method UpsertChown(key: InodeKey, uid: u32, gid: u32, defaultUid: u32, defaultGid: u32)
      modifies this`inodeMap
      ensures inodeMap == ApplyMap(old(inodeMap), Chown(key, uid, gid, defaultUid, defaultGid))
    {
      var inode := NewInode(defaultUid, defaultGid);
      if key in inodeMap {
        inode := inodeMap[key];
      }
      if uid != ID_UNCHANGED {
        inode := inode.(uid := uid);
      }
      if gid != ID_UNCHANGED {
        inode := inode.(gid := gid);
      }
      inodeMap := inodeMap[key := inode];
    }
  }
}
