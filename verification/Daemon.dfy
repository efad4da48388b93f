/** The daemon: dispatch of one message, and the loop that serves one connection. */
module Daemon {
  import opened Base
  import opened State
  import opened Framing
  import opened Wire

  datatype Server = Server(inodes: InodeMap, uid: u32, gid: u32, shutdown: bool)

  function Answer(id: u64, payload: Bytes): Message {
    Message(Response, payload, id)
  }

  function Refusal(id: u64, why: string): Message {
    Message(Kind.Error, Ascii(why), id)
  }

  /** A response carrying a serialized payload, or None when serializing it panics. */
  function Encoded(id: u64, payload: Option<Bytes>): Option<Message> {
    match payload
    case Some(b) => Some(Answer(id, b))
    case None => None
  }

  function ResultFor(inode: Option<FakeInode>): LookupResult {
    match inode
    case Some(i) => LookupResult(true, i)
    case None => LookupResult(false, NewInode(0, 0))
  }

  /** What one message does to the server, and the reply to it; None means the handler dies. */
  function Dispatch(w: WireFormat, m: Message, s: Server): (Server, Option<Message>) {
    match m.kind
    case Ping => (s, Some(Answer(m.requestId, Ascii("pong"))))
    case GetCurrentUidGid => (s, Encoded(m.requestId, w.ids.encode(Ids(s.uid, s.gid))))
    case SetCurrentUidGid =>
      (match Parse(w.ids, m.payload)
       case Some(p) => (s.(uid := p.uid, gid := p.gid), Some(Answer(m.requestId, [])))
       case None => (s, Some(Refusal(m.requestId, "Invalid UidGidPayload"))))
    case Init =>
      (match Parse(w.ids, m.payload)
       case Some(p) => (s.(uid := p.uid, gid := p.gid), Some(Answer(m.requestId, [])))
       case None => (s, Some(Refusal(m.requestId, "Invalid UidGidPayload"))))
    case RegisterOwnership =>
      (match Parse(w.keyed, m.payload)
       case Some(p) => (s.(inodes := ApplyMap(s.inodes, Put(p.key, p.inode))), Some(Answer(m.requestId, [])))
       case None => (s, Some(Refusal(m.requestId, "Invalid InodeStatePayload"))))
    case UpsertChown =>
      (match Parse(w.chown, m.payload)
       case Some(p) =>
         (s.(inodes := ApplyMap(s.inodes, Chown(p.key, p.uid, p.gid, p.defaultUid, p.defaultGid))), Some(Answer(m.requestId, [])))
       case None => (s, Some(Refusal(m.requestId, "Invalid ChownPayload"))))
    case GetOwnership =>
      (match Parse(w.key, m.payload)
       case Some(k) => (s, Encoded(m.requestId, w.result.encode(ResultFor(Lookup(s.inodes, k)))))
       case None => (s, Some(Refusal(m.requestId, "Invalid InodeKeyPayload"))))
    case RemoveOwnership =>
      (match Parse(w.key, m.payload)
       case Some(k) => (s.(inodes := ApplyMap(s.inodes, Op.Remove(k))), Some(Answer(m.requestId, [])))
       case None => (s, Some(Refusal(m.requestId, "Invalid InodeKeyPayload"))))
    case Shutdown => (s.(shutdown := true), Some(Answer(m.requestId, [])))
    case Response => (s, Some(Refusal(m.requestId, "Unexpected message type")))
    case Error => (s, Some(Refusal(m.requestId, "Unexpected message type")))
  }

  /** Setting the ids, by either message, sets just those, and asking afterwards answers them. */
  lemma IdsAreSet(w: WireFormat, kind: Kind, ids: Ids, id: u64, again: u64, s: Server)
    requires FaithfulWire(w) && (kind.SetCurrentUidGid? || kind.Init?) && w.ids.encode(ids).Some?
    ensures
      var (after, reply) := Dispatch(w, Message(kind, w.ids.encode(ids).value, id), s);
      && after.uid == ids.uid && after.gid == ids.gid && after.inodes == s.inodes && after.shutdown == s.shutdown
      && reply == Some(Message(Response, [], id))
      && var (still, answer) := Dispatch(w, Message(GetCurrentUidGid, [], again), after);
      && still == after && answer == Some(Message(Response, w.ids.encode(ids).value, again))
      && Parse(w.ids, w.ids.encode(ids).value) == Some(ids)
  {
    ParseEncoded(w.ids, ids);
  }

  /** A payload that cannot be parsed changes nothing and is answered by an error. */
  lemma MalformedRefused(w: WireFormat, m: Message, s: Server)
    requires
      || ((m.kind.SetCurrentUidGid? || m.kind.Init?) && Parse(w.ids, m.payload).None?)
      || (m.kind.RegisterOwnership? && Parse(w.keyed, m.payload).None?)
      || (m.kind.UpsertChown? && Parse(w.chown, m.payload).None?)
      || ((m.kind.GetOwnership? || m.kind.RemoveOwnership?) && Parse(w.key, m.payload).None?)
      || m.kind.Response? || m.kind.Error?
    ensures Dispatch(w, m, s).0 == s
    ensures Dispatch(w, m, s).1.Some? && Dispatch(w, m, s).1.value.kind == Kind.Error && |Dispatch(w, m, s).1.value.payload| > 0
  {
  }

  /** A ping is answered and changes nothing; a shutdown is answered and sets the flag, which nothing else does. */
  lemma PingAndShutdown(w: WireFormat, m: Message, s: Server)
    ensures m.kind.Ping? ==> Dispatch(w, m, s) == (s, Some(Message(Response, [112, 111, 110, 103], m.requestId)))
    ensures m.kind.Shutdown? ==> Dispatch(w, m, s) == (s.(shutdown := true), Some(Message(Response, [], m.requestId)))
    ensures !m.kind.Shutdown? ==> Dispatch(w, m, s).0.shutdown == s.shutdown
  {
    assert Ascii("pong") == [112, 111, 110, 103];
  }

  /** Every reply carries the id of the message it answers. */
  lemma ReplyEchoesId(w: WireFormat, m: Message, s: Server)
    ensures Dispatch(w, m, s).1.Some? ==> Dispatch(w, m, s).1.value.requestId == m.requestId
  {
  }

  // ----- The client's stubs -----

  function CallKind(op: Op): Kind {
    match op
    case Get(_) => GetOwnership
    case Chown(_, _, _, _, _) => UpsertChown
    case Put(_, _) => RegisterOwnership
    case Remove(_) => RemoveOwnership
  }

  function CallPayload(w: WireFormat, op: Op): Option<Bytes> {
    match op
    case Get(k) => w.key.encode(k)
    case Chown(k, u, g, du, dg) => w.chown.encode(ChownArgs(k, u, g, du, dg))
    case Put(k, inode) => w.keyed.encode(KeyedInode(k, inode))
    case Remove(k) => w.key.encode(k)
  }

  /** What a lookup stub makes of a reply. */
  function LookupAnswer(w: WireFormat, m: Message): Option<FakeInode> {
    if m.kind != Response then None
    else
      match Parse(w.result, m.payload)
      case Some(r) => if r.found then Some(r.inode) else None
      case None => None
  }

  /**
   One remote call does to the daemon's map what the operation does to a plain map, and the
   lookup stub returns the plain map's entry.
   */
  lemma RemoteCallExact(w: WireFormat, op: Op, id: u64, s: Server)
    requires FaithfulWire(w) && CallPayload(w, op).Some?
    ensures
      var (after, reply) := Dispatch(w, Message(CallKind(op), CallPayload(w, op).value, id), s);
      && after == s.(inodes := ApplyMap(s.inodes, op))
      && (!op.Get? ==> reply == Some(Answer(id, [])))
      && (op.Get? && reply.Some? ==> reply.value.kind == Response && LookupAnswer(w, reply.value) == Lookup(s.inodes, op.key))
  {
    match op
    case Get(k) =>
      ParseEncoded(w.key, k);
      var r := ResultFor(Lookup(s.inodes, k));
      if w.result.encode(r).Some? {
        ParseEncoded(w.result, r);
      }
    case Chown(k, u, g, du, dg) => ParseEncoded(w.chown, ChownArgs(k, u, g, du, dg));
    case Put(k, inode) => ParseEncoded(w.keyed, KeyedInode(k, inode));
    case Remove(k) => ParseEncoded(w.key, k);
  }

  // ----- Serving one connection -----

  /** One turn of a handler: it stops, or writes a reply and goes on with the rest of the stream. */
  datatype Turn = Stop(after: Server) | Go(written: Bytes, rest: Bytes, after: Server)

  function TakeTurn(w: WireFormat, input: Bytes, s: Server): (t: Turn)
    ensures t.Go? ==> |t.rest| < |input|
  {
    match ReadFrame(input)
    case None => Stop(s)
    case Some((frame, rest)) =>
      match Parse(w.message, frame)
      case None => Stop(s)
      case Some(m) =>
        var (after, reply) := Dispatch(w, m, s);
        match reply
        case None => Stop(after)
        case Some(r) =>
          match w.message.encode(r)
          case None => Stop(after)
          case Some(b) => Go(Frame(b), rest, after)
  }

  /** The bytes a handler writes for the bytes it reads, and the state it leaves. */
  function Serve(w: WireFormat, input: Bytes, s: Server): (Bytes, Server)
    decreases |input|
  {
    match TakeTurn(w, input, s)
    case Stop(after) => ([], after)
    case Go(written, rest, after) => (written + Serve(w, rest, after).0, Serve(w, rest, after).1)
  }

  /** A frame that cannot be parsed, like an early end, stops the handler: nothing is written or changed. */
  lemma UnreadableStops(w: WireFormat, input: Bytes, s: Server)
    requires ReadFrame(input).None? || Parse(w.message, ReadFrame(input).value.0).None?
    ensures Serve(w, input, s) == ([], s)
  {
  }

  /** The requests and their replies in order, and the final state, when every message is answered. */
  function Exchanges(w: WireFormat, ms: seq<Message>, s: Server): (seq<Message>, Server)
  {
    if ms == [] then ([], s)
    else
      var (after, reply) := Dispatch(w, ms[0], s);
      match reply
      case None => ([], after)
      case Some(r) =>
        var (more, end) := Exchanges(w, ms[1..], after);
        ([r] + more, end)
  }

  function EncodeAll(w: WireFormat, ms: seq<Message>): seq<Bytes> {
    if ms == [] then [] else [w.message.encode(ms[0]).GetOr([])] + EncodeAll(w, ms[1..])
  }

  /** A message that a frame can carry. */
  ghost predicate Sendable(w: WireFormat, m: Message) {
    w.message.encode(m).Some? && |w.message.encode(m).value| < U32_LIMIT
  }

  ghost predicate AllSendable(w: WireFormat, ms: seq<Message>) {
    forall j :: 0 <= j < |ms| ==> Sendable(w, ms[j])
  }

  /**
   Requests sent back to back on one connection are all served, in order: the handler writes
   exactly the frames of their replies and leaves the state they lead to.
   */
  lemma {:induction false} ServesEveryRequest(w: WireFormat, ms: seq<Message>, s: Server)
    requires FaithfulWire(w) && AllSendable(w, ms)
    requires |Exchanges(w, ms, s).0| == |ms| && AllSendable(w, Exchanges(w, ms, s).0)
    ensures Serve(w, Frames(EncodeAll(w, ms)), s) == (Frames(EncodeAll(w, Exchanges(w, ms, s).0)), Exchanges(w, ms, s).1)
    decreases |ms|
  {
    if ms != [] {
      var b, rest := w.message.encode(ms[0]).value, Frames(EncodeAll(w, ms[1..]));
      assert Sendable(w, ms[0]);
      FrameRoundTrip(b, rest);
      ParseEncoded(w.message, ms[0]);
      var (after, reply) := Dispatch(w, ms[0], s);
      var replies := Exchanges(w, ms, s).0;
      var more := Exchanges(w, ms[1..], after).0;
      assert reply.Some? && replies == [reply.value] + more;
      assert Sendable(w, replies[0]);
      forall j | 0 <= j < |more|
        ensures Sendable(w, more[j])
      {
        assert more[j] == replies[j + 1];
      }
      ServesEveryRequest(w, ms[1..], after);
      assert replies[1..] == more;
    }
  }

  /** A name for what serving does, whose definition only comes into play where Serve is written out. */
  ghost predicate Denotes(serve: (Bytes, Server) -> (Bytes, Server), w: WireFormat) {
    forall b, s {:trigger Serve(w, b, s)} :: serve(b, s) == Serve(w, b, s)
  }

  class DaemonServer {
    const wire: WireFormat
    const state: FakeRootState
    var shutdown: bool

    constructor (wire: WireFormat, state: FakeRootState)
      ensures this.wire == wire && this.state == state && !shutdown
    {
      this.wire, this.state, this.shutdown := wire, state, false;
    }

    ghost function Snapshot(): Server
      reads this, state
    {
      Server(state.inodeMap, state.currentUid, state.currentGid, shutdown)
    }

    method SetIds(m: Message) returns (reply: Message)
      requires m.kind.SetCurrentUidGid? || m.kind.Init?
      modifies state
      ensures (Snapshot(), Some(reply)) == Dispatch(wire, m, old(Snapshot()))
    {
      match Parse(wire.ids, m.payload)
      case Some(p) =>
        state.SetCurrent(p.uid, p.gid);
        reply := Answer(m.requestId, []);
      case None =>
        reply := Refusal(m.requestId, "Invalid UidGidPayload");
    }

    method DispatchMessage(m: Message) returns (reply: Option<Message>)
      modifies state, this`shutdown
      ensures (Snapshot(), reply) == Dispatch(wire, m, old(Snapshot()))
    {
      match m.kind
      case Ping =>
        reply := Some(Answer(m.requestId, Ascii("pong")));
      case GetCurrentUidGid =>
        reply := Encoded(m.requestId, wire.ids.encode(Ids(state.currentUid, state.currentGid)));
      case SetCurrentUidGid =>
        var r := SetIds(m);
        reply := Some(r);
      case RegisterOwnership =>
        match Parse(wire.keyed, m.payload) {
          case Some(p) =>
            state.SetInode(p.key, p.inode);
            reply := Some(Answer(m.requestId, []));
          case None =>
            reply := Some(Refusal(m.requestId, "Invalid InodeStatePayload"));
        }
      case UpsertChown =>
        match Parse(wire.chown, m.payload) {
          case Some(p) =>
            state.UpsertChown(p.key, p.uid, p.gid, p.defaultUid, p.defaultGid);
            reply := Some(Answer(m.requestId, []));
          case None =>
            reply := Some(Refusal(m.requestId, "Invalid ChownPayload"));
        }
      case GetOwnership =>
        match Parse(wire.key, m.payload) {
          case Some(k) =>
            var inode := state.GetInode(k);
            reply := Encoded(m.requestId, wire.result.encode(ResultFor(inode)));
          case None =>
            reply := Some(Refusal(m.requestId, "Invalid InodeKeyPayload"));
        }
      case RemoveOwnership =>
        match Parse(wire.key, m.payload) {
          case Some(k) =>
            var _ := state.RemoveInode(k);
            reply := Some(Answer(m.requestId, []));
          case None =>
            reply := Some(Refusal(m.requestId, "Invalid InodeKeyPayload"));
        }
      case Init =>
        var r := SetIds(m);
        reply := Some(r);
      case Shutdown =>
        shutdown := true;
        reply := Some(Answer(m.requestId, []));
      case Response =>
        reply := Some(Refusal(m.requestId, "Unexpected message type"));
      case Error =>
        reply := Some(Refusal(m.requestId, "Unexpected message type"));
    }

    /** Read, dispatch and answer one message; reports whether the handler goes on. */
    method AnswerOne(stream: ByteStream) returns (more: bool, ghost written: Bytes)
      modifies state, this`shutdown, stream
      ensures stream.outgoing == old(stream.outgoing) + written
      ensures TakeTurn(wire, old(stream.incoming), old(Snapshot()))
           == if more then Go(written, stream.incoming, Snapshot()) else Stop(Snapshot())
      ensures !more ==> written == []
    {
      written := [];
      assert stream.outgoing + [] == stream.outgoing;
      var frame := stream.ReadFramed();
      if frame.None? {
        return false, [];
      }
      var parsed := Parse(wire.message, frame.value);
      if parsed.None? {
        return false, [];
      }
      var reply := DispatchMessage(parsed.value);
      if reply.None? {
        return false, [];
      }
      var bytes := wire.message.encode(reply.value);
      if bytes.None? {
        return false, [];
      }
      stream.WriteFramed(bytes.value);
      return true, Frame(bytes.value);
    }

    /** The same turn, seen as taking the first step off what is left to serve. */
    method ServeOne(stream: ByteStream, ghost serve: (Bytes, Server) -> (Bytes, Server))
      returns (more: bool, ghost written: Bytes, ghost left: (Bytes, Server))
      requires Denotes(serve, wire)
      modifies state, this`shutdown, stream
      ensures stream.outgoing == old(stream.outgoing) + written
      ensures serve(old(stream.incoming), old(Snapshot())) == (written + left.0, left.1)
      ensures more ==> left == serve(stream.incoming, Snapshot()) && |stream.incoming| < |old(stream.incoming)|
      ensures !more ==> left == ([], Snapshot())
    {
      ghost var turn := TakeTurn(wire, stream.incoming, Snapshot());
      ghost var all := Serve(wire, stream.incoming, Snapshot());
      assert serve(stream.incoming, Snapshot()) == all;
      assert all == if turn.Go? then (turn.written + Serve(wire, turn.rest, turn.after).0, Serve(wire, turn.rest, turn.after).1)
                    else ([], turn.after);
      more, written := AnswerOne(stream);
      left := if more then Serve(wire, stream.incoming, Snapshot()) else ([], Snapshot());
      assert turn == if more then Go(written, stream.incoming, Snapshot()) else Stop(Snapshot());
      assert all.1 == left.1;
      assert all.0 == written + left.0;
    }

    /** Serve until the stream ends or a turn fails. */
    method ServeAll(stream: ByteStream, ghost serve: (Bytes, Server) -> (Bytes, Server))
      requires Denotes(serve, wire)
      modifies state, this`shutdown, stream
      ensures stream.outgoing == old(stream.outgoing) + serve(old(stream.incoming), old(Snapshot())).0
      ensures Snapshot() == serve(old(stream.incoming), old(Snapshot())).1
    {
      ghost var all := serve(stream.incoming, Snapshot());
      ghost var sofar: Bytes, left := [], all;
      assert sofar + left.0 == left.0;
      var more := true;
      while more
        invariant stream.outgoing == old(stream.outgoing) + sofar
        invariant all == (sofar + left.0, left.1)
        invariant left == if more then serve(stream.incoming, Snapshot()) else ([], Snapshot())
        decreases more, |stream.incoming|
      {
        ghost var written, next;
        more, written, next := ServeOne(stream, serve);
        assert sofar + (written + next.0) == (sofar + written) + next.0;
        sofar, left := sofar + written, next;
      }
    }

    /** Serve one connection. */
    method HandleClient(stream: ByteStream)
      modifies state, this`shutdown, stream
      ensures
        var (written, after) := Serve(wire, old(stream.incoming), old(Snapshot()));
        stream.outgoing == old(stream.outgoing) + written && Snapshot() == after
    {
      ServeAll(stream, (b: Bytes, s: Server) => Serve(wire, b, s));
    }
  }
}
