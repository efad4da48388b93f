/**
 N clients and one daemon over framed byte streams, as steps. A client sends a request, its
 bytes cross in arbitrary pieces, its handler dispatches whole frames against the shared state,
 the reply crosses back in arbitrary pieces, and the client takes the next whole frame as its
 reply without comparing ids.
 */
module Rpc {
  import opened Base
  import opened State
  import opened Framing
  import opened Wire
  import opened Daemon

  datatype Exchange = Exchange(request: Message, reply: Message)

  datatype Phase = Quiet | Awaiting(request: Message)

  /**
   One client, its connection and its handler: bytes not yet written by the client, bytes on
   their way to the daemon, bytes not yet written by the handler, bytes on their way back, and
   the exchanges the client has completed. A handler that hangs up is closed.
   */
  datatype Peer = Peer(phase: Phase, unsent: Bytes, up: Bytes, held: Bytes, down: Bytes, done: seq<Exchange>, closed: bool)

  /** A dispatched message and the client it came from. */
  datatype Dispatched = Dispatched(client: nat, message: Message)

  datatype System = System(peers: seq<Peer>, server: Server, log: seq<Dispatched>)

  // ----- Steps -----

  ghost predicate Sends(w: WireFormat, s: System, t: System, i: nat, m: Message) {
    && i < |s.peers| && s.peers[i].phase.Quiet? && Sendable(w, m)
    && t == s.(peers := s.peers[i := s.peers[i].(phase := Awaiting(m), unsent := Frame(w.message.encode(m).value))])
  }

  ghost predicate ClientFlushes(s: System, t: System, i: nat, k: nat) {
    && i < |s.peers| && k <= |s.peers[i].unsent|
    && t == s.(peers := s.peers[i := s.peers[i].(up := s.peers[i].up + s.peers[i].unsent[..k], unsent := s.peers[i].unsent[k..])])
  }

  ghost predicate HandlerFlushes(s: System, t: System, i: nat, k: nat) {
    && i < |s.peers| && k <= |s.peers[i].held|
    && t == s.(peers := s.peers[i := s.peers[i].(down := s.peers[i].down + s.peers[i].held[..k], held := s.peers[i].held[k..])])
  }

  /**
   A handler takes one whole frame, dispatches it and queues the reply; it hangs up on a message
   it cannot parse. Replies that cannot be serialized into a frame are outside this model.
   */
  ghost predicate Handles(w: WireFormat, s: System, t: System, i: nat) {
    && i < |s.peers| && !s.peers[i].closed
    && var p := s.peers[i];
    && ReadFrame(p.up).Some?
    && var (frame, rest) := ReadFrame(p.up).value;
    match Parse(w.message, frame)
    case None => t == s.(peers := s.peers[i := p.(closed := true)])
    case Some(m) =>
      var (after, reply) := Dispatch(w, m, s.server);
      && reply.Some? && Sendable(w, reply.value)
      && t == System(s.peers[i := p.(up := rest, held := p.held + Frame(w.message.encode(reply.value).value))],
                     after, s.log + [Dispatched(i, m)])
  }

  /** The client takes the next frame as the reply to its request. */
  ghost predicate Receives(w: WireFormat, s: System, t: System, i: nat) {
    && i < |s.peers|
    && var p := s.peers[i];
    && p.phase.Awaiting? && ReadFrame(p.down).Some?
    && var (frame, rest) := ReadFrame(p.down).value;
    match Parse(w.message, frame)
    case None => t == s.(peers := s.peers[i := p.(closed := true)])
    case Some(m) =>
      t == s.(peers := s.peers[i := p.(phase := Quiet, down := rest, done := p.done + [Exchange(p.phase.request, m)])])
  }

  ghost predicate Step(w: WireFormat, s: System, t: System) {
    || (exists i, m :: Sends(w, s, t, i, m))
    || (exists i, k :: ClientFlushes(s, t, i, k))
    || (exists i :: Handles(w, s, t, i))
    || (exists i, k :: HandlerFlushes(s, t, i, k))
    || (exists i :: Receives(w, s, t, i))
  }

  ghost predicate Start(s: System) {
    && s.log == [] && s.server.inodes == map[]
    && forall i :: 0 <= i < |s.peers| ==> s.peers[i] == Peer(Quiet, [], [], [], [], [], false)
  }

  ghost predicate IsRun(w: WireFormat, run: seq<System>) {
    |run| > 0 && Start(run[0]) && forall j :: 0 <= j < |run| - 1 ==> Step(w, run[j], run[j + 1])
  }

  // ----- What the dispatch order means -----

  /** The server state after dispatching the logged messages in order. */
  function Fold(w: WireFormat, s: Server, log: seq<Dispatched>): Server {
    if log == [] then s
    else Dispatch(w, log[|log| - 1].message, Fold(w, s, log[..|log| - 1])).0
  }

  /** The exchanges of client i that the dispatch order determines. */
  function Transcript(w: WireFormat, s: Server, log: seq<Dispatched>, i: nat): seq<Exchange> {
    if log == [] then []
    else
      var init, last := log[..|log| - 1], log[|log| - 1];
      var reply := Dispatch(w, last.message, Fold(w, s, init)).1;
      Transcript(w, s, init, i)
      + if last.client == i && reply.Some? then [Exchange(last.message, reply.value)] else []
  }

  /** The inode operation that a message asks for, if it is a well-formed one. */
  function OpOf(w: WireFormat, m: Message): Option<Op> {
    match m.kind
    case RegisterOwnership =>
      (match Parse(w.keyed, m.payload) case Some(p) => Some(Put(p.key, p.inode)) case None => None)
    case UpsertChown =>
      (match Parse(w.chown, m.payload)
       case Some(p) => Some(Chown(p.key, p.uid, p.gid, p.defaultUid, p.defaultGid))
       case None => None)
    case GetOwnership => (match Parse(w.key, m.payload) case Some(k) => Some(Get(k)) case None => None)
    case RemoveOwnership => (match Parse(w.key, m.payload) case Some(k) => Some(Op.Remove(k)) case None => None)
    case _ => None
  }

  function OpsOf(w: WireFormat, log: seq<Dispatched>): seq<Op> {
    if log == [] then []
    else
      var init, op := log[..|log| - 1], OpOf(w, log[|log| - 1].message);
      OpsOf(w, init) + if op.Some? then [op.value] else []
  }

  lemma {:induction false} RunMapAppend(m: InodeMap, ops: seq<Op>, op: Op)
    ensures RunMap(m, ops + [op]) == ApplyMap(RunMap(m, ops), op)
    decreases |ops|
  {
    if ops == [] {
      assert ops + [op] == [op];
      assert RunMap(ApplyMap(m, op), []) == ApplyMap(m, op);
    } else {
      assert (ops + [op])[0] == ops[0] && (ops + [op])[1..] == ops[1..] + [op];
      RunMapAppend(ApplyMap(m, ops[0]), ops[1..], op);
    }
  }

  /** The daemon's inode map is the plain map run on the dispatched inode requests, in dispatch order. */
  lemma {:induction false} FoldIsPlainRun(w: WireFormat, s: Server, log: seq<Dispatched>)
    ensures Fold(w, s, log).inodes == RunMap(s.inodes, OpsOf(w, log))
    decreases |log|
  {
    if log != [] {
      var init, m := log[..|log| - 1], log[|log| - 1].message;
      FoldIsPlainRun(w, s, init);
      var op := OpOf(w, m);
      if op.Some? {
        RunMapAppend(s.inodes, OpsOf(w, init), op.value);
      } else {
        assert OpsOf(w, init) + [] == OpsOf(w, init);
      }
    }
  }

  // ----- The invariant -----

  /** A request on its way, or its reply on its way back, and nothing else on the connection. */
  ghost predicate InFlight(w: WireFormat, p: Peer, transcript: seq<Exchange>)
    requires p.phase.Awaiting?
  {
    var m := p.phase.request;
    && Sendable(w, m)
    && ((p.up + p.unsent == Frame(w.message.encode(m).value) && p.held == [] && p.down == [] && transcript == p.done)
        || (p.unsent == [] && p.up == [] && Answered(w, p, m, transcript)))
  }

  ghost predicate Answered(w: WireFormat, p: Peer, m: Message, transcript: seq<Exchange>) {
    && |transcript| == |p.done| + 1 && transcript[..|p.done|] == p.done
    && transcript[|p.done|].request == m
    && Sendable(w, transcript[|p.done|].reply)
    && p.down + p.held == Frame(w.message.encode(transcript[|p.done|].reply).value)
  }

  ghost predicate PeerFits(w: WireFormat, p: Peer, transcript: seq<Exchange>) {
    && !p.closed
    && (p.phase.Quiet? ==> p.unsent == [] && p.up == [] && p.held == [] && p.down == [] && transcript == p.done)
    && (p.phase.Awaiting? ==> InFlight(w, p, transcript))
  }

  ghost predicate Fits(w: WireFormat, first: Server, s: System) {
    && s.server == Fold(w, first, s.log)
    && forall i :: 0 <= i < |s.peers| ==> PeerFits(w, s.peers[i], Transcript(w, first, s.log, i))
  }

  /** A whole frame at the head of a stream is exactly that frame when only part of one was there before. */
  lemma WholeFrameOnly(w: WireFormat, m: Message, stream: Bytes, rest: Bytes)
    requires FaithfulWire(w) && Sendable(w, m)
    requires stream + rest == Frame(w.message.encode(m).value) && ReadFrame(stream).Some?
    ensures rest == [] && ReadFrame(stream) == Some((w.message.encode(m).value, []))
    ensures Parse(w.message, w.message.encode(m).value) == Some(m)
  {
    var b := w.message.encode(m).value;
    ParseEncoded(w.message, m);
    if |stream| < |Frame(b)| {
      assert Frame(b)[..|stream|] == stream;
      PartialFrameWaits(b, |stream|);
    }
    assert |rest| == 0;
    assert stream + [] == stream;
    FrameRoundTrip(b, []);
  }

  lemma TranscriptGrows(w: WireFormat, first: Server, log: seq<Dispatched>, e: Dispatched, i: nat)
    ensures Fold(w, first, log + [e]) == Dispatch(w, e.message, Fold(w, first, log)).0
    ensures
      var reply := Dispatch(w, e.message, Fold(w, first, log)).1;
      Transcript(w, first, log + [e], i)
      == Transcript(w, first, log, i) + if e.client == i && reply.Some? then [Exchange(e.message, reply.value)] else []
  {
  }

  /** A handler finds a frame only while a request is on its way, and then exactly that request. */
  lemma HandledIsRequest(w: WireFormat, p: Peer, transcript: seq<Exchange>)
    requires FaithfulWire(w) && PeerFits(w, p, transcript) && ReadFrame(p.up).Some?
    ensures p.phase.Awaiting? && Sendable(w, p.phase.request) && transcript == p.done
    ensures p.unsent == [] && p.held == [] && p.down == []
    ensures ReadFrame(p.up).value.1 == [] && Parse(w.message, ReadFrame(p.up).value.0) == Some(p.phase.request)
  {
    assert p.up != [];
    WholeFrameOnly(w, p.phase.request, p.up, p.unsent);
  }

  lemma AnsweredPeerFits(w: WireFormat, p: Peer, m: Message, reply: Message)
    requires p.phase == Awaiting(m) && Sendable(w, m) && Sendable(w, reply) && !p.closed
    requires p.unsent == [] && p.up == [] && p.down + p.held == Frame(w.message.encode(reply).value)
    ensures PeerFits(w, p, p.done + [Exchange(m, reply)])
  {
  }

  lemma HandleKeepsPeer(w: WireFormat, first: Server, s: System, t: System, i: nat)
    requires FaithfulWire(w) && Fits(w, first, s) && Handles(w, s, t, i)
    ensures |t.peers| == |s.peers| && t.server == Fold(w, first, t.log)
    ensures t.log == s.log + [Dispatched(i, s.peers[i].phase.request)]
    ensures PeerFits(w, t.peers[i], Transcript(w, first, t.log, i))
  {
    var p := s.peers[i];
    HandledIsRequest(w, p, Transcript(w, first, s.log, i));
    var m := p.phase.request;
    TranscriptGrows(w, first, s.log, Dispatched(i, m), i);
    var reply := Dispatch(w, m, s.server).1.value;
    assert p.down + (p.held + Frame(w.message.encode(reply).value)) == Frame(w.message.encode(reply).value);
    AnsweredPeerFits(w, t.peers[i], m, reply);
  }

  lemma ReceiveKeepsPeer(w: WireFormat, first: Server, s: System, t: System, i: nat)
    requires FaithfulWire(w) && Fits(w, first, s) && Receives(w, s, t, i)
    ensures |t.peers| == |s.peers| && t.server == s.server && t.log == s.log
    ensures PeerFits(w, t.peers[i], Transcript(w, first, t.log, i))
  {
    var p, transcript := s.peers[i], Transcript(w, first, s.log, i);
    assert PeerFits(w, p, transcript);
    assert p.down != [];
    var e := transcript[|p.done|];
    WholeFrameOnly(w, e.reply, p.down, p.held);
    assert e == Exchange(p.phase.request, e.reply);
    assert transcript == p.done + [e];
  }

  lemma SendKeepsFits(w: WireFormat, first: Server, s: System, t: System, i: nat, m: Message)
    requires Fits(w, first, s) && Sends(w, s, t, i, m)
    ensures Fits(w, first, t) && |t.peers| == |s.peers|
  {
  }

  lemma ClientFlushKeepsFits(w: WireFormat, first: Server, s: System, t: System, i: nat, k: nat)
    requires Fits(w, first, s) && ClientFlushes(s, t, i, k)
    ensures Fits(w, first, t) && |t.peers| == |s.peers|
  {
  }

  lemma HandlerFlushKeepsFits(w: WireFormat, first: Server, s: System, t: System, i: nat, k: nat)
    requires Fits(w, first, s) && HandlerFlushes(s, t, i, k)
    ensures Fits(w, first, t) && |t.peers| == |s.peers|
  {
  }

  lemma HandleKeepsFits(w: WireFormat, first: Server, s: System, t: System, i: nat)
    requires FaithfulWire(w) && Fits(w, first, s) && Handles(w, s, t, i)
    ensures Fits(w, first, t) && |t.peers| == |s.peers|
  {
    HandleKeepsPeer(w, first, s, t, i);
    var e := Dispatched(i, s.peers[i].phase.request);
    forall j | 0 <= j < |t.peers|
      ensures PeerFits(w, t.peers[j], Transcript(w, first, t.log, j))
    {
      if j != i {
        assert t.peers[j] == s.peers[j];
        TranscriptGrows(w, first, s.log, e, j);
      }
    }
  }

  lemma ReceiveKeepsFits(w: WireFormat, first: Server, s: System, t: System, i: nat)
    requires FaithfulWire(w) && Fits(w, first, s) && Receives(w, s, t, i)
    ensures Fits(w, first, t) && |t.peers| == |s.peers|
  {
    ReceiveKeepsPeer(w, first, s, t, i);
    forall j | 0 <= j < |t.peers|
      ensures PeerFits(w, t.peers[j], Transcript(w, first, t.log, j))
    {
      if j != i {
        assert t.peers[j] == s.peers[j];
      }
    }
  }

  lemma StepKeepsFits(w: WireFormat, first: Server, s: System, t: System)
    requires FaithfulWire(w) && Fits(w, first, s) && Step(w, s, t)
    ensures Fits(w, first, t) && |t.peers| == |s.peers|
  {
    if i, m :| Sends(w, s, t, i, m) {
      SendKeepsFits(w, first, s, t, i, m);
    } else if i, k :| ClientFlushes(s, t, i, k) {
      ClientFlushKeepsFits(w, first, s, t, i, k);
    } else if i :| Handles(w, s, t, i) {
      HandleKeepsFits(w, first, s, t, i);
    } else if i, k :| HandlerFlushes(s, t, i, k) {
      HandlerFlushKeepsFits(w, first, s, t, i, k);
    } else {
      var i :| Receives(w, s, t, i);
      ReceiveKeepsFits(w, first, s, t, i);
    }
  }

  lemma {:induction false} RunFits(w: WireFormat, run: seq<System>, j: nat)
    requires FaithfulWire(w) && IsRun(w, run) && j < |run|
    ensures Fits(w, run[0].server, run[j]) && |run[j].peers| == |run[0].peers|
    decreases j
  {
    if j > 0 {
      RunFits(w, run, j - 1);
      StepKeepsFits(w, run[0].server, run[j - 1], run[j]);
    }
  }

  lemma {:induction false} TranscriptIds(w: WireFormat, first: Server, log: seq<Dispatched>, i: nat, e: Exchange)
    requires e in Transcript(w, first, log, i)
    ensures e.reply.requestId == e.request.requestId
    decreases |log|
  {
    var init, last := log[..|log| - 1], log[|log| - 1];
    ReplyEchoesId(w, last.message, Fold(w, first, init));
    if e in Transcript(w, first, init, i) {
      TranscriptIds(w, first, init, i, e);
    }
  }

  /**
   In every reachable state no connection has been dropped, every reply a client has received
   carries the id it sent, what each client has seen is a prefix, missing at most the last
   exchange, of what the dispatch order determines for it, and the inode map is the plain map
   run on the dispatched inode requests in that order.
   */
  lemma RepliesMatchRequests(w: WireFormat, run: seq<System>, j: nat, i: nat)
    requires FaithfulWire(w) && IsRun(w, run) && j < |run| && i < |run[j].peers|
    ensures !run[j].peers[i].closed
    ensures forall e :: e in run[j].peers[i].done ==> e.reply.requestId == e.request.requestId
    ensures
      var seen, all := run[j].peers[i].done, Transcript(w, run[0].server, run[j].log, i);
      seen <= all && |all| <= |seen| + 1
    ensures run[j].server.inodes == RunMap(map[], OpsOf(w, run[j].log))
  {
    RunFits(w, run, j);
    var p, all := run[j].peers[i], Transcript(w, run[0].server, run[j].log, i);
    assert PeerFits(w, p, all);
    FoldIsPlainRun(w, run[0].server, run[j].log);
    assert p.done <= all;
    forall e | e in p.done
      ensures e.reply.requestId == e.request.requestId
    {
      assert e in all;
      TranscriptIds(w, run[0].server, run[j].log, i, e);
    }
  }
}
