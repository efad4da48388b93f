/** Protocol messages, their payloads, and the serializers they go through. */
module Wire {
  import opened Base
  import opened Codec

  datatype Kind =
    | RegisterOwnership | SetCurrentUidGid | GetCurrentUidGid | Ping | Response | Error
    | GetOwnership | RemoveOwnership | Init | UpsertChown | Shutdown

  datatype Message = Message(kind: Kind, payload: Bytes, requestId: u64)

  datatype KeyedInode = KeyedInode(key: InodeKey, inode: FakeInode)
  datatype ChownArgs = ChownArgs(key: InodeKey, uid: u32, gid: u32, defaultUid: u32, defaultGid: u32)

  /** The answer to a lookup; the inode means nothing unless found. */
  datatype LookupResult = LookupResult(found: bool, inode: FakeInode)

  /** The serializers of a session, one per type that crosses the socket. */
  datatype WireFormat = WireFormat(
    message: Codec<Message>,
    ids: Codec<Ids>,
    key: Codec<InodeKey>,
    keyed: Codec<KeyedInode>,
    chown: Codec<ChownArgs>,
    result: Codec<LookupResult>)

  ghost predicate FaithfulWire(w: WireFormat) {
    && RoundTrips(w.message) && RoundTrips(w.ids) && RoundTrips(w.key)
    && RoundTrips(w.keyed) && RoundTrips(w.chown) && RoundTrips(w.result)
  }

  /** Deserialize from a buffer, ignoring bytes left over. */
  function Parse<T>(c: Codec<T>, b: Bytes): Option<T> {
    match c.decode(b)
    case Some((x, _)) => Some(x)
    case None => None
  }

  lemma ParseEncoded<T(!new)>(c: Codec<T>, x: T)
    requires RoundTrips(c) && c.encode(x).Some?
    ensures Parse(c, c.encode(x).value) == Some(x)
  {
    var b := c.encode(x).value;
    assert b + [] == b;
  }

  // ----- One concrete format -----

  function KindIndex(k: Kind): u32 {
    match k
    case RegisterOwnership => 0
    case SetCurrentUidGid => 1
    case GetCurrentUidGid => 2
    case Ping => 3
    case Response => 4
    case Error => 5
    case GetOwnership => 6
    case RemoveOwnership => 7
    case Init => 8
    case UpsertChown => 9
    case Shutdown => 10
  }

  function KindAt(i: u32): Option<Kind> {
    if i > 10 then None
    else Some([RegisterOwnership, SetCurrentUidGid, GetCurrentUidGid, Ping, Response, Error,
               GetOwnership, RemoveOwnership, Init, UpsertChown, Shutdown][i])
  }

  function DecodeKind(b: Bytes): Option<(Kind, Bytes)> {
    match U32Codec().decode(b)
    case None => None
    case Some((i, rest)) =>
      match KindAt(i)
      case None => None
      case Some(k) => Some((k, rest))
  }

  function KindCodec(): Codec<Kind> {
    Codec((k: Kind) => U32Codec().encode(KindIndex(k)), (b: Bytes) => DecodeKind(b))
  }

  lemma KindAtIndex(k: Kind)
    ensures KindAt(KindIndex(k)) == Some(k)
  {
  }

  lemma KindAfterEncoding(k: Kind, rest: Bytes)
    ensures U32Codec().encode(KindIndex(k)).Some?
    ensures DecodeKind(U32Codec().encode(KindIndex(k)).value + rest) == Some((k, rest))
  {
    IntegersRoundTrip();
    KindAtIndex(k);
    var i := KindIndex(k);
    assert U32Codec().decode(U32Codec().encode(i).value + rest) == Some((i, rest));
  }

  lemma KindRoundTrips()
    ensures RoundTrips(KindCodec())
  {
    forall k: Kind, rest: Bytes
      ensures U32Codec().encode(KindIndex(k)).Some?
      ensures DecodeKind(U32Codec().encode(KindIndex(k)).value + rest) == Some((k, rest))
    {
      KindAfterEncoding(k, rest);
    }
  }

  function MessageCodec(): Codec<Message> {
    MappedCodec(PairCodec(KindCodec(), PairCodec(BytesCodec(), U64Codec())),
                (p: (Kind, (Bytes, u64))) => Message(p.0, p.1.0, p.1.1),
                (m: Message) => (m.kind, (m.payload, m.requestId)))
  }

  function IdsCodec(): Codec<Ids> {
    MappedCodec(PairCodec(U32Codec(), U32Codec()), (p: (u32, u32)) => Ids(p.0, p.1), (i: Ids) => (i.uid, i.gid))
  }

  function KeyCodec(): Codec<InodeKey> {
    PairCodec(U64Codec(), U64Codec())
  }

  type InodeTuple = (Ids, (Option<u32>, (Option<u64>, Xattrs)))

  ghost function InodeCodec(): Codec<FakeInode> {
    MappedCodec(PairCodec(IdsCodec(), PairCodec(OptionCodec(U32Codec()), PairCodec(OptionCodec(U64Codec()), XattrsCodec()))),
                (p: InodeTuple) => FakeInode(p.0.uid, p.0.gid, p.1.0, p.1.1.0, p.1.1.1),
                (i: FakeInode) => (Ids(i.uid, i.gid), (i.mode, (i.rdev, i.xattrs))))
  }

  ghost function KeyedCodec(): Codec<KeyedInode> {
    MappedCodec(PairCodec(KeyCodec(), InodeCodec()),
                (p: (InodeKey, FakeInode)) => KeyedInode(p.0, p.1), (k: KeyedInode) => (k.key, k.inode))
  }

  function ChownCodec(): Codec<ChownArgs> {
    MappedCodec(PairCodec(KeyCodec(), PairCodec(IdsCodec(), IdsCodec())),
                (p: (InodeKey, (Ids, Ids))) => ChownArgs(p.0, p.1.0.uid, p.1.0.gid, p.1.1.uid, p.1.1.gid),
                (c: ChownArgs) => (c.key, (Ids(c.uid, c.gid), Ids(c.defaultUid, c.defaultGid))))
  }

  /** Found is written as an option tag over an ignored zero. */
  ghost function ResultCodec(): Codec<LookupResult> {
    MappedCodec(PairCodec(OptionCodec(U32Codec()), InodeCodec()),
                (p: (Option<u32>, FakeInode)) => LookupResult(p.0.Some?, p.1),
                (r: LookupResult) => (if r.found then Some(0) else None, r.inode))
  }

  ghost function FixedWire(): WireFormat {
    WireFormat(MessageCodec(), IdsCodec(), KeyCodec(), KeyedCodec(), ChownCodec(), ResultCodec())
  }

  lemma InodeRoundTrips()
    ensures RoundTrips(IdsCodec()) && RoundTrips(InodeCodec())
  {
    IntegersRoundTrip();
    PairRoundTrips(U32Codec(), U32Codec());
    MappedRoundTrips(PairCodec(U32Codec(), U32Codec()), (p: (u32, u32)) => Ids(p.0, p.1), (i: Ids) => (i.uid, i.gid));
    OptionRoundTrips(U32Codec());
    OptionRoundTrips(U64Codec());
    XattrsRoundTrip();
    PairRoundTrips(OptionCodec(U64Codec()), XattrsCodec());
    PairRoundTrips(OptionCodec(U32Codec()), PairCodec(OptionCodec(U64Codec()), XattrsCodec()));
    var inner := PairCodec(OptionCodec(U32Codec()), PairCodec(OptionCodec(U64Codec()), XattrsCodec()));
    PairRoundTrips(IdsCodec(), inner);
    MappedRoundTrips(PairCodec(IdsCodec(), inner),
                     (p: InodeTuple) => FakeInode(p.0.uid, p.0.gid, p.1.0, p.1.1.0, p.1.1.1),
                     (i: FakeInode) => (Ids(i.uid, i.gid), (i.mode, (i.rdev, i.xattrs))));
  }

  /** The obligation on serializers can be met for everything that crosses the socket. */
  lemma FixedWireFaithful()
    ensures FaithfulWire(FixedWire())
  {
    IntegersRoundTrip();
    BytesRoundTrip();
    KindRoundTrips();
    InodeRoundTrips();
    PairRoundTrips(BytesCodec(), U64Codec());
    PairRoundTrips(KindCodec(), PairCodec(BytesCodec(), U64Codec()));
    MappedRoundTrips(PairCodec(KindCodec(), PairCodec(BytesCodec(), U64Codec())),
                     (p: (Kind, (Bytes, u64))) => Message(p.0, p.1.0, p.1.1),
                     (m: Message) => (m.kind, (m.payload, m.requestId)));
    PairRoundTrips(U64Codec(), U64Codec());
    PairRoundTrips(KeyCodec(), InodeCodec());
    MappedRoundTrips(PairCodec(KeyCodec(), InodeCodec()),
                     (p: (InodeKey, FakeInode)) => KeyedInode(p.0, p.1), (k: KeyedInode) => (k.key, k.inode));
    PairRoundTrips(IdsCodec(), IdsCodec());
    PairRoundTrips(KeyCodec(), PairCodec(IdsCodec(), IdsCodec()));
    MappedRoundTrips(PairCodec(KeyCodec(), PairCodec(IdsCodec(), IdsCodec())),
                     (p: (InodeKey, (Ids, Ids))) => ChownArgs(p.0, p.1.0.uid, p.1.0.gid, p.1.1.uid, p.1.1.gid),
                     (c: ChownArgs) => (c.key, (Ids(c.uid, c.gid), Ids(c.defaultUid, c.defaultGid))));
    OptionRoundTrips(U32Codec());
    PairRoundTrips(OptionCodec(U32Codec()), InodeCodec());
    MappedRoundTrips(PairCodec(OptionCodec(U32Codec()), InodeCodec()),
                     (p: (Option<u32>, FakeInode)) => LookupResult(p.0.Some?, p.1),
                     (r: LookupResult) => (if r.found then Some(0) else None, r.inode));
  }
}
