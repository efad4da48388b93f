/** The client's end of a connection: send a message, take the next frame as the reply. */
module Channel {
  import opened Base
  import opened Codec
  import opened Framing
  import opened Wire

  class IpcChannel {
    const wire: WireFormat
    var stream: ByteStream?

    constructor (wire: WireFormat)
      ensures this.wire == wire && stream == null
    {
      this.wire, this.stream := wire, null;
    }

    /** Attach a connected stream unless there is one already. */
    method Connect(connection: ByteStream)
      modifies this
      ensures stream == if old(stream) == null then connection else old(stream)
    {
      if stream == null {
        stream := connection;
      }
    }

    method Send(m: Message) returns (sent: bool)
      requires wire.message.encode(m).Some?
      modifies stream
      ensures sent <==> stream != null
      ensures stream != null ==>
                && stream.outgoing == old(stream.outgoing) + Frame(wire.message.encode(m).value)
                && stream.incoming == old(stream.incoming)
    {
      if stream == null {
        return false;
      }
      stream.WriteFramed(wire.message.encode(m).value);
      sent := true;
    }

    method Recv() returns (r: Option<Message>)
      modifies stream
      ensures r.Some? ==>
                && stream != null && ReadFrame(old(stream.incoming)).Some?
                && r == Parse(wire.message, ReadFrame(old(stream.incoming)).value.0)
                && stream.incoming == ReadFrame(old(stream.incoming)).value.1
      ensures stream != null && r.None? ==>
                match ReadFrame(old(stream.incoming))
                case Some((frame, _)) => Parse(wire.message, frame).None?
                case None => true
      ensures stream != null ==> stream.outgoing == old(stream.outgoing)
    {
      if stream == null {
        return None;
      }
      var frame := stream.ReadFramed();
      if frame.None? {
        return None;
      }
      r := Parse(wire.message, frame.value);
    }

    /** Whatever message comes next on the stream is returned, whichever id it carries. */
    method Request(m: Message, ghost next: Message, ghost rest: Bytes) returns (r: Option<Message>)
      requires wire.message.encode(m).Some? && RoundTrips(wire.message)
      requires wire.message.encode(next).Some? && |wire.message.encode(next).value| < U32_LIMIT
      modifies stream
      ensures stream == null ==> r.None?
      ensures stream != null && old(stream.incoming) == Frame(wire.message.encode(next).value) + rest ==>
                r == Some(next) && stream.incoming == rest
      ensures stream != null ==> stream.outgoing == old(stream.outgoing) + Frame(wire.message.encode(m).value)
    {
      var sent := Send(m);
      if !sent {
        return None;
      }
      FrameRoundTrip(wire.message.encode(next).value, rest);
      ParseEncoded(wire.message, next);
      r := Recv();
    }
  }
}
