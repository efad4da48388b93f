/**
 Little-endian integers and the serializer, which stays a parameter: a codec is an encoder
 and a decoder that undoes it. One concrete length-prefixed codec shows that the obligation
 can be met for every type the program serializes.
 */
module Codec {
  import opened Base
  import opened Division

  function Power256(w: nat): (p: nat)
    ensures p > 0
  {
    if w == 0 then 1 else 256 * Power256(w - 1)
  }

  /** The w low bytes of v, least significant first. */
  function LeBytes(v: nat, w: nat): (b: Bytes)
    ensures |b| == w
  {
    if w == 0 then [] else [v % 256] + LeBytes(v / 256, w - 1)
  }

  function LeValue(b: Bytes): (v: nat)
    ensures v < Power256(|b|)
  {
    if b == [] then 0 else b[0] + 256 * LeValue(b[1..])
  }

  lemma {:induction false} LeRoundTrip(v: nat, w: nat)
    requires v < Power256(w)
    ensures LeValue(LeBytes(v, w)) == v
  {
    if w > 0 {
      LeRoundTrip(v / 256, w - 1);
      assert LeBytes(v, w)[1..] == LeBytes(v / 256, w - 1);
    }
  }

  /** Byte i holds the i-th digit to base 256, the least significant first. */
  lemma {:induction false} LeDigits(v: nat, w: nat, i: nat)
    requires i < w
    ensures LeBytes(v, w)[i] == v / Power256(i) % 256
    decreases i
  {
    if i > 0 {
      LeDigits(v / 256, w - 1, i - 1);
      ByteThenQuotient(v, Power256(i - 1));
    }
  }

  lemma Widths()
    ensures Power256(4) == U32_LIMIT && Power256(8) == U64_LIMIT
  {
  }

  function U32Of(b: Bytes): u32
    requires |b| == 4
  {
    Widths();
    LeValue(b)
  }

  function U64Of(b: Bytes): u64
    requires |b| == 8
  {
    Widths();
    LeValue(b)
  }

  // ----- Codecs -----

  /**
   encode may refuse a value; decode takes a prefix of its input and returns the rest.
   */
  datatype Codec<!T> = Codec(encode: T -> Option<Bytes>, decode: Bytes -> Option<(T, Bytes)>)

  ghost predicate RoundTrips<T(!new)>(c: Codec<T>) {
    forall x, rest ::
      c.encode(x).Some? ==> c.decode(c.encode(x).value + rest) == Some((x, rest))
  }

  function U32Codec(): Codec<u32> {
    Codec((x: u32) => Some(LeBytes(x, 4)), (b: Bytes) => if |b| < 4 then None else Some((U32Of(b[..4]), b[4..])))
  }

  function U64Codec(): Codec<u64> {
    Codec((x: u64) => Some(LeBytes(x, 8)), (b: Bytes) => if |b| < 8 then None else Some((U64Of(b[..8]), b[8..])))
  }

  lemma IntegersRoundTrip()
    ensures RoundTrips(U32Codec()) && RoundTrips(U64Codec())
  {
    Widths();
    forall x: u32, rest: Bytes
      ensures U32Codec().decode(LeBytes(x, 4) + rest) == Some((x, rest))
    {
      LeRoundTrip(x, 4);
      assert (LeBytes(x, 4) + rest)[..4] == LeBytes(x, 4);
      assert (LeBytes(x, 4) + rest)[4..] == rest;
    }
    forall x: u64, rest: Bytes
      ensures U64Codec().decode(LeBytes(x, 8) + rest) == Some((x, rest))
    {
      LeRoundTrip(x, 8);
      assert (LeBytes(x, 8) + rest)[..8] == LeBytes(x, 8);
      assert (LeBytes(x, 8) + rest)[8..] == rest;
    }
  }

  /** Two values one after the other. */
  function EncodePair<A, B>(a: Codec<A>, b: Codec<B>, x: (A, B)): Option<Bytes> {
    match (a.encode(x.0), b.encode(x.1))
    case (Some(p), Some(q)) => Some(p + q)
    case _ => None
  }

  function DecodePair<A, B>(a: Codec<A>, b: Codec<B>, s: Bytes): Option<((A, B), Bytes)> {
    match a.decode(s)
    case None => None
    case Some((x, rest)) =>
      match b.decode(rest)
      case None => None
      case Some((y, rest')) => Some(((x, y), rest'))
  }

  function PairCodec<A, B>(a: Codec<A>, b: Codec<B>): Codec<(A, B)> {
    Codec(x => EncodePair(a, b, x), s => DecodePair(a, b, s))
  }

  lemma PairDecode<A(!new), B(!new)>(a: Codec<A>, b: Codec<B>, x: (A, B), rest: Bytes)
    requires RoundTrips(a) && RoundTrips(b) && EncodePair(a, b, x).Some?
    ensures DecodePair(a, b, EncodePair(a, b, x).value + rest) == Some((x, rest))
  {
    var p, q := a.encode(x.0).value, b.encode(x.1).value;
    assert (p + q) + rest == p + (q + rest);
  }

  lemma PairRoundTrips<A(!new), B(!new)>(a: Codec<A>, b: Codec<B>)
    requires RoundTrips(a) && RoundTrips(b)
    ensures RoundTrips(PairCodec(a, b))
  {
    forall x: (A, B), rest: Bytes | EncodePair(a, b, x).Some?
      ensures DecodePair(a, b, EncodePair(a, b, x).value + rest) == Some((x, rest))
    {
      PairDecode(a, b, x, rest);
    }
  }

  /** A value that may be absent, behind a one-byte tag. */
  function EncodeOption<A>(a: Codec<A>, x: Option<A>): Option<Bytes> {
    match x
    case None => Some([0])
    case Some(v) =>
      match a.encode(v)
      case None => None
      case Some(b) => Some([1] + b)
  }

  function DecodeOption<A>(a: Codec<A>, s: Bytes): Option<(Option<A>, Bytes)> {
    if s == [] || s[0] > 1 then None
    else if s[0] == 0 then Some((None, s[1..]))
    else
      match a.decode(s[1..])
      case None => None
      case Some((x, rest)) => Some((Some(x), rest))
  }

  function OptionCodec<A>(a: Codec<A>): Codec<Option<A>> {
    Codec(x => EncodeOption(a, x), s => DecodeOption(a, s))
  }

  lemma OptionRoundTrips<A(!new)>(a: Codec<A>)
    requires RoundTrips(a)
    ensures RoundTrips(OptionCodec(a))
  {
    forall x: Option<A>, rest: Bytes | EncodeOption(a, x).Some?
      ensures DecodeOption(a, EncodeOption(a, x).value + rest) == Some((x, rest))
    {
      var s := EncodeOption(a, x).value + rest;
      match x
      case None => assert s[1..] == rest;
      case Some(v) => assert s[1..] == a.encode(v).value + rest;
    }
  }

  /** The same bytes for a renamed value. */
  function MappedCodec<A, B>(a: Codec<A>, to: A -> B, from: B -> A): Codec<B> {
    Codec(
      (y: B) => a.encode(from(y)),
      (s: Bytes) =>
        match a.decode(s)
        case None => None
        case Some((x, rest)) => Some((to(x), rest)))
  }

  lemma MappedRoundTrips<A(!new), B(!new)>(a: Codec<A>, to: A -> B, from: B -> A)
    requires RoundTrips(a) && forall y :: to(from(y)) == y
    ensures RoundTrips(MappedCodec(a, to, from))
  {
  }

  /** A byte string behind its 64-bit length; longer strings are refused. */
  function EncodeBytes(b: Bytes): Option<Bytes> {
    if |b| < U64_LIMIT then Some(LeBytes(|b|, 8) + b) else None
  }

  function DecodeBytes(s: Bytes): Option<(Bytes, Bytes)> {
    if |s| < 8 then None
    else
      var len := U64Of(s[..8]);
      if |s| - 8 < len then None else Some((s[8..8 + len], s[8 + len..]))
  }

  function BytesCodec(): Codec<Bytes> {
    Codec(EncodeBytes, DecodeBytes)
  }

  lemma BytesRoundTrip()
    ensures RoundTrips(BytesCodec())
  {
    Widths();
    forall b: Bytes, rest: Bytes | EncodeBytes(b).Some?
      ensures DecodeBytes(EncodeBytes(b).value + rest) == Some((b, rest))
    {
      LeRoundTrip(|b|, 8);
      var s := LeBytes(|b|, 8) + b + rest;
      assert s[..8] == LeBytes(|b|, 8);
      assert s[8..8 + |b|] == b;
      assert s[8 + |b|..] == rest;
    }
  }

  // ----- Attribute maps -----

  type Entry = (Bytes, Bytes)

  function EntryCodec(): Codec<Entry> {
    PairCodec(BytesCodec(), BytesCodec())
  }

  /** The map that a list of entries stands for, later entries overriding earlier ones. */
  ghost function MapOf(l: seq<Entry>): Xattrs {
    if l == [] then map[] else MapOf(l[..|l| - 1])[l[|l| - 1].0 := l[|l| - 1].1]
  }

  function EncodeEntries(l: seq<Entry>): Option<Bytes> {
    if l == [] then Some([])
    else
      match (EncodeEntries(l[..|l| - 1]), EntryCodec().encode(l[|l| - 1]))
      case (Some(p), Some(q)) => Some(p + q)
      case _ => None
  }

  function DecodeEntries(n: nat, s: Bytes): Option<(Xattrs, Bytes)> {
    if n == 0 then Some((map[], s))
    else
      match DecodeEntries(n - 1, s)
      case None => None
      case Some((m, rest)) =>
        match EntryCodec().decode(rest)
        case None => None
        case Some((e, rest')) => Some((m[e.0 := e.1], rest'))
  }

  /** A list of entries written one after the other reads back as the map it stands for. */
  lemma {:induction false} EntriesRoundTrip(l: seq<Entry>, rest: Bytes)
    requires EncodeEntries(l).Some?
    ensures DecodeEntries(|l|, EncodeEntries(l).value + rest) == Some((MapOf(l), rest))
    decreases |l|
  {
    if l == [] {
      assert [] + rest == rest;
    } else {
      var init, last := l[..|l| - 1], l[|l| - 1];
      var p, q := EncodeEntries(init).value, EntryCodec().encode(last).value;
      assert (p + q) + rest == p + (q + rest);
      EntriesRoundTrip(init, q + rest);
      BytesRoundTrip();
      PairRoundTrips(BytesCodec(), BytesCodec());
      assert EntryCodec().decode(q + rest) == Some((last, rest));
    }
  }

  /** The list names each attribute of the map once, in some order, as iterating over a hash map does. */
  ghost predicate Lists(l: seq<Entry>, m: Xattrs) {
    && (forall i, j :: 0 <= i < j < |l| ==> l[i].0 != l[j].0)
    && (forall e :: e in l <==> e.0 in m && m[e.0] == e.1)
  }

  lemma ListsEach(l: seq<Entry>, m: Xattrs)
    requires Lists(l, m)
    ensures |m| > 0 ==> |l| > 0
  {
    if |m| > 0 {
      var k :| k in m;
      var e := (k, m[k]);
      assert e in l;
    }
  }

  lemma ListsInit(l: seq<Entry>, last: Entry, m: Xattrs)
    requires Lists(l + [last], m)
    ensures Lists(l, m - {last.0}) && last.0 in m && m[last.0] == last.1
  {
    var all := l + [last];
    assert last in all;
    forall i, j | 0 <= i < j < |l|
      ensures l[i].0 != l[j].0
    {
      assert all[i] == l[i] && all[j] == l[j];
    }
    forall i | 0 <= i < |l|
      ensures l[i].0 != last.0
    {
      assert all[i] == l[i] && all[|l|] == last;
    }
    forall e
      ensures e in l <==> e.0 in m - {last.0} && m[e.0] == e.1
    {
      assert e in all <==> e in l || e == last;
    }
  }

  /** All orders of a map's entries stand for that map. */
  lemma {:induction false} AnyOrder(l: seq<Entry>, m: Xattrs)
    requires Lists(l, m)
    ensures MapOf(l) == m
    decreases |l|
  {
    if l == [] {
      ListsEach(l, m);
    } else {
      var init, last := l[..|l| - 1], l[|l| - 1];
      assert l == init + [last];
      ListsInit(init, last, m);
      AnyOrder(init, m - {last.0});
    }
  }

  ghost function Listing(m: Xattrs): (l: seq<Entry>)
    ensures Lists(l, m)
    decreases |m|
  {
    if m == map[] then []
    else
      var k :| k in m;
      Listing(m - {k}) + [(k, m[k])]
  }

  ghost function EncodeXattrs(m: Xattrs): Option<Bytes> {
    if |Listing(m)| >= U64_LIMIT then None
    else
      match EncodeEntries(Listing(m))
      case None => None
      case Some(b) => Some(LeBytes(|Listing(m)|, 8) + b)
  }

  function DecodeXattrs(s: Bytes): Option<(Xattrs, Bytes)> {
    if |s| < 8 then None else DecodeEntries(U64Of(s[..8]), s[8..])
  }

  ghost function XattrsCodec(): Codec<Xattrs> {
    Codec(m => EncodeXattrs(m), s => DecodeXattrs(s))
  }

  lemma CountRead(n: nat, b: Bytes, rest: Bytes)
    requires n < U64_LIMIT
    ensures (LeBytes(n, 8) + b + rest)[..8] == LeBytes(n, 8) && (LeBytes(n, 8) + b + rest)[8..] == b + rest
    ensures U64Of(LeBytes(n, 8)) == n
  {
    Widths();
    LeRoundTrip(n, 8);
  }

  /** A counted list of a map's entries, in whatever order they are written, decodes as the map. */
  lemma AnyOrderDecodes(l: seq<Entry>, m: Xattrs, rest: Bytes)
    requires Lists(l, m) && EncodeEntries(l).Some? && |l| < U64_LIMIT
    ensures DecodeXattrs(LeBytes(|l|, 8) + EncodeEntries(l).value + rest) == Some((m, rest))
  {
    var b := EncodeEntries(l).value;
    CountRead(|l|, b, rest);
    EntriesRoundTrip(l, rest);
    AnyOrder(l, m);
    CountedDecodes(LeBytes(|l|, 8) + b + rest, |l|, m, rest);
  }

  lemma CountedDecodes(s: Bytes, n: nat, m: Xattrs, rest: Bytes)
    requires |s| >= 8 && U64Of(s[..8]) == n && DecodeEntries(n, s[8..]) == Some((m, rest))
    ensures DecodeXattrs(s) == Some((m, rest))
  {
  }

  /** The concrete codec for attribute maps meets the obligation. */
  lemma XattrsRoundTrip()
    ensures RoundTrips(XattrsCodec())
    ensures forall m :: XattrsCodec().encode(m).Some? ==> |XattrsCodec().encode(m).value| > 0
  {
    forall m: Xattrs, rest: Bytes | EncodeXattrs(m).Some?
      ensures DecodeXattrs(EncodeXattrs(m).value + rest) == Some((m, rest))
    {
      AnyOrderDecodes(Listing(m), m, rest);
    }
  }
}
