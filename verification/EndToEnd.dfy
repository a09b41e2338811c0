/** A call from the caller's arguments to the callee's, and its reply on the way back. */
module EndToEnd {
  import opened Words
  import opened Wire
  import opened Values
  import opened ValueRoundTrip
  import opened Arguments
  import opened Headers
  import opened Framing

  /**
   * A request sent anywhere in a stream in a frame of at least eight bytes: the callee's struct gets the
   * caller's arguments, its further fields stay zero, and the stream stands right behind the frame.
   */
  lemma RequestDelivered(m: Sent, vs: seq<Value>, ts: seq<Type>, more: seq<Type>, room: nat, stream: bytes, pos: nat, end: nat)
    requires |vs| <= 255 && HaveTypes(vs, ts) && AllPortable(vs)
    requires m.Valid() && m.payload == EncodeArgs(List(vs)) && |m.MessageBody()| < 0x8000_0000 && |m.Frame()| >= 8
    requires Spans(stream, pos, end, m.Frame())
    ensures var r := Decode(FRESH, room, stream, pos);
      && r == Received(ReadBack(m.header), m.payload, end)
      && DecodeArgs(Struct(ts + more), r.payload) == Some(vs + Zeros(more))
  {
    FrameAt(m, room, stream, pos, end);
    ListIntoStruct(vs, ts, more);
  }

  /** A request whose frame is too short: a notification without number, metadata and names, and no arguments. */
  lemma RequestFrames(m: Sent, vs: seq<Value>)
    requires m.Valid() && m.payload == EncodeArgs(List(vs))
    ensures |m.Frame()| >= 8 <==>
            FieldNum(m.header) > 2 || |m.header.path| + |m.header.name| >= 1 || vs != []
  {
    ReplySize(vs);
    ShortFrames(m);
  }

  lemma ResponseReceived(m: Sent, room: nat, stream: bytes, pos: nat, end: nat)
    requires m.Valid() && m.header.callType == 1 && |m.MessageBody()| < 0x8000_0000
    requires Spans(stream, pos, end, m.Frame())
    ensures Decode(FRESH, room, stream, pos) == Received(m.header, m.payload, end)
  {
    ShortFrames(m);
    FrameAt(m, room, stream, pos, end);
  }

  /** A response: the header comes back whole, and from its payload the return code and the one result. */
  lemma ResponseDelivered(m: Sent, retcode: int, v: Value, t: Type, room: nat, stream: bytes, pos: nat, end: nat)
    requires -0x8000_0000 <= retcode < 0x8000_0000 && HasType(v, t) && Portable(v)
    requires m.Valid() && m.header.callType == 1 && |m.MessageBody()| < 0x8000_0000
    requires m.payload == EncodeRetArgs(retcode, EncodeArgs(Single(v)))
    requires Spans(stream, pos, end, m.Frame())
    ensures var r := Decode(FRESH, room, stream, pos);
      && r == Received(m.header, m.payload, end)
      && UnpackRetCode(r.payload).0 == retcode
      && DecodeArgs(Pointers([t]), UnpackRetCode(r.payload).1) == Some([v])
  {
    ResponseReceived(m, room, stream, pos, end);
    ReplyRoundTrip(retcode, v, t);
  }
}
