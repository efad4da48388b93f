/** Length-prefixed frames on a byte stream: four big-endian length bytes, then the payload. */
module Framing {
  import opened Base

  /** The big-endian length prefix; the length is cut to 32 bits first. */
  function Prefix(len: nat): (b: Bytes)
    ensures |b| == 4
  {
    var n := len % U32_LIMIT;
    [n / 0x100_0000, n / 0x1_0000 % 256, n / 0x100 % 256, n % 256]
  }

  function PrefixValue(b: Bytes): nat
    requires |b| == 4
  {
    var b0: int, b1: int, b2: int, b3: int := b[0], b[1], b[2], b[3];
    b0 * 0x100_0000 + b1 * 0x1_0000 + b2 * 0x100 + b3
  }

  function Frame(payload: Bytes): Bytes {
    Prefix(|payload|) + payload
  }

  /** The first payload of a stream and what follows it, or None when the stream ends too soon. */
  function ReadFrame(s: Bytes): (r: Option<(Bytes, Bytes)>)
    ensures r.Some? ==> |r.value.1| < |s|
  {
    if |s| < 4 then None
    else
      var len := PrefixValue(s[..4]);
      if |s| - 4 < len then None else Some((s[4..4 + len], s[4 + len..]))
  }

  function Frames(ps: seq<Bytes>): Bytes {
    if ps == [] then [] else Frame(ps[0]) + Frames(ps[1..])
  }

  function ReadFrames(n: nat, s: Bytes): Option<(seq<Bytes>, Bytes)> {
    if n == 0 then Some(([], s))
    else
      match ReadFrame(s)
      case None => None
      case Some((p, rest)) =>
        match ReadFrames(n - 1, rest)
        case None => None
        case Some((ps, rest')) => Some(([p] + ps, rest'))
  }

  lemma PrefixRoundTrip(len: nat)
    ensures PrefixValue(Prefix(len)) == len % U32_LIMIT
  {
    var n := len % U32_LIMIT;
    assert n / 0x1_0000 == n / 0x100_0000 * 256 + n / 0x1_0000 % 256;
    assert n / 0x100 == n / 0x1_0000 * 256 + n / 0x100 % 256;
  }

  lemma FrameRead(p: Bytes, rest: Bytes)
    ensures ReadFrame(Frame(p) + rest)
         == Some((p[..|p| % U32_LIMIT], p[|p| % U32_LIMIT..] + rest))
  {
    var n := |p| % U32_LIMIT;
    PrefixRoundTrip(|p|);
    var s := Frame(p) + rest;
    assert s[..4] == Prefix(|p|);
    assert n <= |p|;
    assert s[4..4 + n] == p[..n];
    assert s[4 + n..] == p[n..] + rest;
  }

  /** A frame starts with its length, the most significant byte first. */
  lemma FrameStarts(p: Bytes)
    requires |p| < 0x1_0000_0000
    ensures |Frame(p)| == 4 + |p| && Frame(p)[4..] == p
    ensures |p| == (Frame(p)[0] as int) * 0x100_0000 + (Frame(p)[1] as int) * 0x1_0000 + (Frame(p)[2] as int) * 0x100 + Frame(p)[3]
  {
    PrefixRoundTrip(|p|);
  }

  /** A frame is read back exactly, whatever follows it, if and only if its length fits 32 bits. */
  lemma FrameExact(p: Bytes)
    ensures (forall rest :: ReadFrame(Frame(p) + rest) == Some((p, rest))) <==> |p| < U32_LIMIT
  {
    if |p| < U32_LIMIT {
      forall rest
        ensures ReadFrame(Frame(p) + rest) == Some((p, rest))
      {
        FrameRoundTrip(p, rest);
      }
    } else {
      FrameRead(p, []);
      assert |p[..|p| % U32_LIMIT]| < |p|;
      var none: Bytes := [];
      assert ReadFrame(Frame(p) + none) != Some((p, none));
    }
  }

  lemma FrameRoundTrip(p: Bytes, rest: Bytes)
    requires |p| < U32_LIMIT
    ensures ReadFrame(Frame(p) + rest) == Some((p, rest))
  {
    FrameRead(p, rest);
    assert |p| % U32_LIMIT == |p|;
    assert p[|p|..] + rest == rest;
  }

  /** Nothing is read from part of a frame. */
  lemma PartialFrameWaits(p: Bytes, k: nat)
    requires |p| < U32_LIMIT && k < |Frame(p)|
    ensures ReadFrame(Frame(p)[..k]).None?
  {
    PrefixRoundTrip(|p|);
    if k >= 4 {
      assert Frame(p)[..k][..4] == Prefix(|p|);
    }
  }

  /**
   Frames written back to back are read back as the same list, consuming exactly their bytes,
   whatever follows.
   */
  lemma {:induction false} FramesDecodable(ps: seq<Bytes>, rest: Bytes)
    requires forall j :: 0 <= j < |ps| ==> |ps[j]| < U32_LIMIT
    ensures ReadFrames(|ps|, Frames(ps) + rest) == Some((ps, rest))
    decreases |ps|
  {
    if ps == [] {
      assert [] + rest == rest;
    } else {
      assert Frames(ps) + rest == Frame(ps[0]) + (Frames(ps[1..]) + rest);
      FrameRoundTrip(ps[0], Frames(ps[1..]) + rest);
      FramesDecodable(ps[1..], rest);
      assert [ps[0]] + ps[1..] == ps;
    }
  }

  /** One end of an in-memory connection. */
  class ByteStream {
    var incoming: Bytes
    var outgoing: Bytes

    constructor (incoming: Bytes)
      ensures this.incoming == incoming && outgoing == []
    {
      this.incoming, this.outgoing := incoming, [];
    }

    method WriteAll(b: Bytes)
      modifies this`outgoing
      ensures outgoing == old(outgoing) + b
    {
      outgoing := outgoing + b;
    }

    /** The next n bytes, or None at an early end of the stream. */
    method ReadExact(n: nat) returns (r: Option<Bytes>)
      modifies this`incoming
      ensures if |old(incoming)| < n then r.None? && incoming == []
              else r == Some(old(incoming)[..n]) && incoming == old(incoming)[n..]
    {
      if |incoming| < n {
        incoming := [];
        return None;
      }
      r := Some(incoming[..n]);
      incoming := incoming[n..];
    }

    method WriteFramed(payload: Bytes)
      modifies this`outgoing
      ensures outgoing == old(outgoing) + Frame(payload)
    {
      WriteAll(Prefix(|payload|));
      WriteAll(payload);
    }

    method ReadFramed() returns (r: Option<Bytes>)
      modifies this`incoming
      ensures match ReadFrame(old(incoming))
              case Some((payload, rest)) => r == Some(payload) && incoming == rest
              case None => r.None?
      ensures |incoming| <= |old(incoming)|
    {
      var prefix := ReadExact(4);
      if prefix.None? {
        return None;
      }
      var len := PrefixValue(prefix.value);
      r := ReadExact(len);
      assert r.Some? ==> old(incoming)[4..][..len] == old(incoming)[4..4 + len];
    }
  }
}
