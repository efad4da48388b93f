/**
 Routing of inode requests to the shared table, a daemon beside a local map, or the local map
 alone, and the agreement of all three with one plain map over whole traces.
 */
module Backends {
  import opened Base
  import opened Codec
  import opened State
  import opened InodeTable
  import opened TableLaws
  import opened TableRuns
  import opened ShmMap

  /** A request as the hooks issue it: an inode operation, or a read-modify-write of one entry. */
  datatype Request =
    | Plain(op: Op)
    | Update(target: InodeKey, edit: FakeInode -> FakeInode, uid: u32, gid: u32)
  {
    function Key(): InodeKey {
      if Plain? then op.key else target
    }
  }

  /** The single operation a request comes to when the entry it sees is the given one. */
  function Resolve(seen: Option<FakeInode>, r: Request): Op {
    match r
    case Plain(op) => op
    case Update(key, edit, uid, gid) => Put(key, edit(seen.GetOr(NewInode(uid, gid))))
  }

  // ----- The reference: one plain map -----

  function ReferenceAnswers(m: InodeMap, rs: seq<Request>): seq<Reply>
    decreases |rs|
  {
    if rs == [] then []
    else
      var op := Resolve(Lookup(m, rs[0].Key()), rs[0]);
      [AnswerMap(m, op)] + ReferenceAnswers(ApplyMap(m, op), rs[1..])
  }

  /** The same, each written inode being reduced to what a slot can hold. */
  function NormalisedAnswers(c: Codec<Xattrs>, m: InodeMap, rs: seq<Request>): seq<Reply>
    decreases |rs|
  {
    if rs == [] then []
    else
      var op := NormaliseOp(c, Resolve(Lookup(m, rs[0].Key()), rs[0]));
      [AnswerMap(m, op)] + NormalisedAnswers(c, ApplyMap(m, op), rs[1..])
  }

  // ----- A daemon beside a local map -----

  /** The two maps of one client: its own, and the daemon's. */
  datatype Maps = Maps(local: InodeMap, daemon: InodeMap)

  /** Whether requests reach a daemon: it is configured and the connection is up. */
  datatype Link = Link(enabled: bool, connected: bool) {
    predicate Active() {
      enabled && connected
    }
  }

  /** The daemon's entry, or the local one when the daemon has none. */
  function TwoLevel(l: Link, s: Maps, key: InodeKey): Option<FakeInode> {
    if l.Active() && Lookup(s.daemon, key).Some? then Lookup(s.daemon, key) else Lookup(s.local, key)
  }

  /** A chown updates only the daemon when one is reached; other writes go to both maps. */
  function Route(l: Link, s: Maps, op: Op): Maps {
    if !l.Active() then s.(local := ApplyMap(s.local, op))
    else if op.Chown? then s.(daemon := ApplyMap(s.daemon, op))
    else Maps(ApplyMap(s.local, op), ApplyMap(s.daemon, op))
  }

  /** Only a configured and connected daemon is asked, and first. */
  lemma LooksUp(l: Link, s: Maps, k: InodeKey)
    ensures
      TwoLevel(l, s, k)
      == if l.enabled && l.connected && k in s.daemon then Some(s.daemon[k])
         else if k in s.local then Some(s.local[k])
         else None
  {
  }

  /** Without a reached daemon the local map alone changes; with one the daemon's does, and the local one but for chowns. */
  lemma Writes(l: Link, s: Maps, op: Op)
    ensures Route(l, s, op).daemon == if l.enabled && l.connected then ApplyMap(s.daemon, op) else s.daemon
    ensures Route(l, s, op).local == if l.enabled && l.connected && op.Chown? then s.local else ApplyMap(s.local, op)
  {
  }

  function RoutedAnswer(l: Link, s: Maps, op: Op): Reply {
    match op
    case Get(key) => Entry(TwoLevel(l, s, key))
    case Remove(key) => Removed(TwoLevel(l, s, key).Some?)
    case _ => Done
  }

  function RoutedAnswers(l: Link, s: Maps, rs: seq<Request>): seq<Reply>
    decreases |rs|
  {
    if rs == [] then []
    else
      var op := Resolve(TwoLevel(l, s, rs[0].Key()), rs[0]);
      [RoutedAnswer(l, s, op)] + RoutedAnswers(l, Route(l, s, op), rs[1..])
  }

  /** The local map never holds a key that the daemon lacks. */
  ghost predicate Coherent(s: Maps) {
    s.local.Keys <= s.daemon.Keys
  }

  /** With a daemon, the two-level lookup gives the daemon's entry for every key exactly when the maps are coherent. */
  lemma CoherentExactly(l: Link, s: Maps)
    requires l.enabled && l.connected
    ensures (forall k :: TwoLevel(l, s, k) == Lookup(s.daemon, k)) <==> Coherent(s)
  {
    if forall k :: TwoLevel(l, s, k) == Lookup(s.daemon, k) {
      forall k | k in s.local
        ensures k in s.daemon
      {
        assert TwoLevel(l, s, k) == Lookup(s.daemon, k);
      }
    }
  }

  /** The map that a client's requests are answered from. */
  function Effective(l: Link, s: Maps): InodeMap {
    if l.Active() then s.daemon else s.local
  }

  lemma RouteStep(l: Link, s: Maps, op: Op)
    requires l.enabled && l.connected ==> Coherent(s)
    ensures l.enabled && l.connected ==> Coherent(Route(l, s, op))
    ensures Effective(l, s) == if l.enabled && l.connected then s.daemon else s.local
    ensures RoutedAnswer(l, s, op) == AnswerMap(Effective(l, s), op)
    ensures Effective(l, Route(l, s, op)) == ApplyMap(Effective(l, s), op)
    ensures TwoLevel(l, s, op.key) == Lookup(Effective(l, s), op.key)
  {
  }

  /**
   A single client, with or without a daemon, is answered over any trace as by one plain map,
   although chowns leave the local map behind.
   */
  lemma {:induction false} RoutedTrace(l: Link, s: Maps, rs: seq<Request>)
    requires l.enabled && l.connected ==> Coherent(s)
    ensures RoutedAnswers(l, s, rs) == ReferenceAnswers(if l.enabled && l.connected then s.daemon else s.local, rs)
    ensures |RoutedAnswers(l, s, rs)| == |rs|
    decreases |rs|
  {
    if rs != [] {
      RouteStep(l, s, Op.Get(rs[0].Key()));
      var op := Resolve(TwoLevel(l, s, rs[0].Key()), rs[0]);
      RouteStep(l, s, op);
      RoutedTrace(l, Route(l, s, op), rs[1..]);
    }
  }

  /**
   Another client removing a key at the daemon leaves this client coherent exactly when this
   client holds no local copy of it; otherwise its lookup returns that copy, however old.
   */
  lemma ForeignRemoval(l: Link, s: Maps, key: InodeKey)
    requires l.enabled && l.connected && Coherent(s)
    ensures
      var after := s.(daemon := ApplyMap(s.daemon, Op.Remove(key)));
      && (Coherent(after) <==> key !in s.local)
      && TwoLevel(l, after, key) == Lookup(s.local, key)
  {
  }

  // ----- The shared table -----

  ghost function SharedAnswers(t: Table, rs: seq<Request>): seq<Reply>
    requires t.Valid()
    decreases |rs|
  {
    if rs == [] then []
    else
      var op := Resolve(t.Get(rs[0].Key()), rs[0]);
      ApplyKeepsValid(t, op);
      [AnswerTable(t, op)] + SharedAnswers(ApplyTable(t, op), rs[1..])
  }

  /** The keys that a trace may write. */
  ghost function KeysRequested(rs: seq<Request>): set<InodeKey> {
    if rs == [] then {}
    else (if rs[0].Update? then {rs[0].target} else KeyWritten(rs[0].op)) + KeysRequested(rs[1..])
  }

  lemma {:induction false} SharedTraceFrom(t: Table, before: seq<Op>, m: InodeMap, rs: seq<Request>)
    requires Fresh(t) && t.Valid() && |KeysWritten(before) + KeysRequested(rs)| < |t.slots|
    requires RunTable(t, before).Valid() && RunTable(t, before).codec == t.codec && Agrees(RunTable(t, before), m)
    ensures SharedAnswers(RunTable(t, before), rs) == NormalisedAnswers(t.codec, m, rs)
    ensures |SharedAnswers(RunTable(t, before), rs)| == |rs|
    decreases |rs|
  {
    if rs != [] {
      var u := RunTable(t, before);
      assert u.Get(rs[0].Key()) == Lookup(m, rs[0].Key());
      var op := Resolve(Lookup(m, rs[0].Key()), rs[0]);
      KeysAfter(before, op, rs);
      NothingDropped(t, before, op, [op]);
      StepSimulates(u, m, op);
      RunAppend(t, before, op);
      RunKeepsValid(t, before + [op]);
      SharedTraceFrom(t, before + [op], ApplyMap(m, NormaliseOp(t.codec, op)), rs[1..]);
    }
  }

  lemma KeysAfter(before: seq<Op>, op: Op, rs: seq<Request>)
    requires rs != [] && KeyWritten(op) <= if rs[0].Update? then {rs[0].target} else KeyWritten(rs[0].op)
    ensures KeysWritten(before + [op]) == KeysWritten(before) + KeyWritten(op)
    ensures |KeysWritten(before + [op])| <= |KeysWritten(before) + KeysRequested(rs)|
    ensures |KeysWritten(before + [op]) + KeysRequested(rs[1..])| <= |KeysWritten(before) + KeysRequested(rs)|
  {
    KeysOfPrefix(before, [op]);
    assert KeysWritten([op]) == KeyWritten(op);
    SubsetSize(KeysWritten(before + [op]), KeysWritten(before) + KeysRequested(rs));
    SubsetSize(KeysWritten(before + [op]) + KeysRequested(rs[1..]), KeysWritten(before) + KeysRequested(rs));
  }

  /**
   A fresh shared table answers any trace that writes fewer keys than it has slots as the
   same plain map does, each written inode being reduced to what a slot can hold.
   */
  lemma SharedTrace(t: Table, rs: seq<Request>)
    requires Fresh(t) && |KeysRequested(rs)| < |t.slots|
    ensures t.Valid() && SharedAnswers(t, rs) == NormalisedAnswers(t.codec, map[], rs) && |SharedAnswers(t, rs)| == |rs|
  {
    FreshTable(t);
    assert KeysWritten([]) + KeysRequested(rs) == KeysRequested(rs);
    SharedTraceFrom(t, [], map[], rs);
  }

  // ----- The router -----

  /** The choice between backends, made once per process. */
  class Router {
    const shm: ShmInodeMap?
    const link: Link
    const local: FakeRootState
    const daemon: FakeRootState

    constructor (shm: ShmInodeMap?, link: Link, local: FakeRootState, daemon: FakeRootState)
      ensures this.shm == shm && this.link == link && this.local == local && this.daemon == daemon
    {
      this.shm, this.link, this.local, this.daemon := shm, link, local, daemon;
    }

    ghost predicate Valid()
      reads this, local, daemon, shm, if shm != null then {shm.base} else {}
    {
      && local != daemon
      && (shm != null ==> shm.Valid() && shm.Model().Valid())
    }

    ghost function Both(): Maps
      reads local, daemon
    {
      Maps(local.inodeMap, daemon.inodeMap)
    }

    /** The entry this process sees for a key. */
    ghost function Seen(key: InodeKey): Option<FakeInode>
      requires Valid()
      reads this, local, daemon, shm, if shm != null then {shm.base} else {}
    {
      if shm != null then shm.Model().Get(key) else TwoLevel(link, Both(), key)
    }

    method GetInode(key: InodeKey) returns (r: Option<FakeInode>)
      requires Valid()
      ensures r == Seen(key)
      ensures shm != null ==> r == shm.Model().Get(key)
      ensures shm == null && link.enabled && link.connected && key in daemon.inodeMap ==> r == Some(daemon.inodeMap[key])
      ensures shm == null && !(link.enabled && link.connected && key in daemon.inodeMap) ==> r == Lookup(local.inodeMap, key)
    {
      if shm != null {
        r := shm.GetInode(key);
        return;
      }
      if link.Active() {
        r := daemon.GetInode(key);
        if r.Some? {
          return;
        }
      }
      r := local.GetInode(key);
    }

    method SetInode(key: InodeKey, inode: FakeInode)
      requires Valid()
      modifies local`inodeMap, daemon`inodeMap, shm, if shm != null then {shm.base} else {}
      ensures Valid()
      ensures shm != null ==> Both() == old(Both()) && shm.Model() == ApplyTable(old(shm.Model()), Put(key, inode))
      ensures shm == null ==> Both() == Route(link, old(Both()), Put(key, inode))
      ensures shm == null ==> local.inodeMap == old(local.inodeMap)[key := inode]
      ensures shm == null && link.enabled && link.connected ==> daemon.inodeMap == old(daemon.inodeMap)[key := inode]
    {
      if shm != null {
        ApplyKeepsValid(shm.Model(), Put(key, inode));
        shm.UpsertInode(key, inode);
        return;
      }
      local.SetInode(key, inode);
      if link.enabled && link.connected {
        daemon.SetInode(key, inode);
      }
    }

    method RemoveInode(key: InodeKey)
      requires Valid()
      modifies local`inodeMap, daemon`inodeMap, shm, if shm != null then {shm.base} else {}
      ensures Valid()
      ensures shm != null ==> Both() == old(Both()) && shm.Model() == ApplyTable(old(shm.Model()), Op.Remove(key))
      ensures shm == null ==> Both() == Route(link, old(Both()), Op.Remove(key))
      ensures shm == null ==> local.inodeMap == old(local.inodeMap) - {key}
      ensures shm == null && link.enabled && link.connected ==> daemon.inodeMap == old(daemon.inodeMap) - {key}
    {
      if shm != null {
        ApplyKeepsValid(shm.Model(), Op.Remove(key));
        var _ := shm.RemoveInode(key);
        return;
      }
      var _ := local.RemoveInode(key);
      if link.enabled && link.connected {
        var _ := daemon.RemoveInode(key);
      }
    }

    method RecordChown(key: InodeKey, uid: u32, gid: u32, fakeUid: u32, fakeGid: u32)
      requires Valid()
      modifies local`inodeMap, daemon`inodeMap, shm, if shm != null then {shm.base} else {}
      ensures Valid()
      ensures shm != null ==>
                && Both() == old(Both())
                && shm.Model() == ApplyTable(old(shm.Model()), Chown(key, uid, gid, fakeUid, fakeGid))
      ensures shm == null ==> Both() == Route(link, old(Both()), Chown(key, uid, gid, fakeUid, fakeGid))
      ensures shm == null && link.enabled && link.connected ==> key in daemon.inodeMap && local.inodeMap == old(local.inodeMap)
      ensures shm == null && !(link.enabled && link.connected) ==> key in local.inodeMap && daemon.inodeMap == old(daemon.inodeMap)
    {
      if shm != null {
        ApplyKeepsValid(shm.Model(), Chown(key, uid, gid, fakeUid, fakeGid));
        shm.UpsertChown(key, uid, gid, fakeUid, fakeGid);
        return;
      }
      if link.Active() {
        daemon.UpsertChown(key, uid, gid, fakeUid, fakeGid);
        return;
      }
      local.UpsertChown(key, uid, gid, fakeUid, fakeGid);
    }

    method UpdateInode(key: InodeKey, edit: FakeInode -> FakeInode, fakeUid: u32, fakeGid: u32)
      requires Valid()
      modifies local`inodeMap, daemon`inodeMap, shm, if shm != null then {shm.base} else {}
      ensures Valid()
      ensures
        var op := Resolve(old(Seen(key)), Update(key, edit, fakeUid, fakeGid));
        && (shm != null ==> Both() == old(Both()) && shm.Model() == ApplyTable(old(shm.Model()), op))
        && (shm == null ==> Both() == Route(link, old(Both()), op))
    {
      var found := GetInode(key);
      var inode := found.GetOr(NewInode(fakeUid, fakeGid));
      SetInode(key, edit(inode));
    }
  }
}
