/** Length-prefixed frames in a byte stream, read by a receiver that always takes eight bytes first. */
module Framing {
  import opened Words
  import opened Varint
  import opened Wire
  import opened Headers

  /** How reading a message can fail: the stream ended, the length was not positive, or something panicked. */
  datatype Failure = EndOfInput | BadLength | Panicked

  datatype Received = Received(header: HeaderData, payload: bytes, pos: nat) | Failed(why: Failure, pos: nat)

  /** A message as it is sent, with the order in which its metadata are written. */
  datatype Sent = Sent(header: HeaderData, ps: seq<Pair>, payload: bytes) {
    function MessageBody(): bytes {
      PackedHeader(header, ps) + payload
    }

    function Frame(): bytes {
      EncodeUint(Unsigned64(|MessageBody()|)) + MessageBody()
    }

    /** Any message a program can hold. */
    ghost predicate Valid() {
      Sized(header) && Lists(ps, header.metadata) && |MessageBody()| < TWO_63
    }
  }

  /** The length and where it ended in the eight bytes read ahead: the low 32 bits, signed. */
  function UnpackLen(ahead: bytes): (r: (int, nat))
    ensures |ahead| > 0 ==> 0 < r.1 <= |ahead|
  {
    var (u, c) := DecodeUint(ahead, 0);
    (Signed(u, TWO_32), c)
  }

  /** Where the body of the next message is, and where the stream stands behind it. */
  datatype Chunk = Chunk(from: nat, to: nat, next: nat) | Broken(why: Failure, next: nat)

  /**
   * Taking one length-prefixed body at `pos` into a receive buffer with room for `room` bytes. Bytes read
   * ahead are not given back to the stream.
   */
  function Take(room: nat, stream: bytes, pos: nat): (c: Chunk)
    requires pos <= |stream|
    ensures c.Chunk? ==> c.from <= c.to <= |stream|
  {
    if |stream| - pos < 8 then Broken(EndOfInput, |stream|) else
      var next := pos + 8;
      var (alen, c) := UnpackLen(stream[pos..next]);
      if alen <= 0 then Broken(BadLength, next) else Fetch(room, |stream|, pos + c, next, alen)
  }

  /** The body starts at `mid`; what lies before `next` has been read ahead. */
  function Fetch(room: nat, size: nat, mid: nat, next: nat, alen: nat): (c: Chunk)
    requires mid <= next <= size
    ensures c.Chunk? ==> c.from <= c.to <= size
  {
    var end := mid + alen;
    if end < next && next - mid > room then Broken(Panicked, next)
    else if end <= next then Chunk(mid, end, next)
    else if end > size then Broken(EndOfInput, size)
    else Chunk(mid, end, end)
  }

  /** Reading one message at `pos` into a message whose header holds `h`. */
  function Decode(h: HeaderData, room: nat, stream: bytes, pos: nat): Received
    requires pos <= |stream|
  {
    match Take(room, stream, pos)
    case Chunk(from, to, next) => Parse(h, stream[from..to], next)
    case Broken(why, next) => Failed(why, next)
  }

  /** The body: the header, and the payload behind it. */
  function Parse(h: HeaderData, body: bytes, end: nat): Received {
    match UnpackHeader(h, body, 0)
    case Ok(header, p) => if p <= |body| then Received(header, body[p..], end) else Failed(Panicked, end)
    case Panic => Failed(Panicked, end)
  }

  // ----- frame sizes

  lemma LengthOfUint(v: uint64, k: nat)
    requires v < Pow128(k) && k > 0
    ensures |EncodeUint(v)| <= k
  {
    EncodingLength(v);
    if |EncodeUint(v)| > k {
      PowersGrow(k, |EncodeUint(v)| - 1);
    }
  }

  /** The length prefix of a body a message can have fits the eight bytes read ahead. */
  lemma PrefixFits(n: nat)
    requires n < 0x8000_0000
    ensures |EncodeUint(n)| <= 5
  {
    assert Pow128(5) == 128 * 128 * 128 * 128 * 128 * Pow128(0);
    LengthOfUint(n, 5);
  }

  lemma TextSize(s: bytes)
    ensures |TextField(s)| >= 2 + |s|
    ensures |s| < 128 ==> |TextField(s)| == 2 + |s|
  {
  }

  lemma HeaderSize(h: HeaderData, ps: seq<Pair>)
    ensures |PackedHeader(h, ps)| >= 5 + |h.path| + |h.name| + if FieldNum(h) > 2 then 2 else 0
    ensures FieldNum(h) == 2 && |h.path| + |h.name| < 2 ==> |PackedHeader(h, ps)| == 5 + |h.path| + |h.name|
  {
    TextSize(h.path);
    TextSize(h.name);
  }

  lemma BodySize(m: Sent)
    ensures |m.MessageBody()| >= 5
  {
    HeaderSize(m.header, m.ps);
  }

  lemma FrameIs(m: Sent, n: nat)
    requires n == |m.MessageBody()| < TWO_63
    ensures m.Frame() == EncodeUint(n) + m.MessageBody()
  {
    Unwrapped(n);
  }

  lemma Unwrapped(n: nat)
    requires n < TWO_63
    ensures Unsigned64(n) == n
  {
  }

  lemma FrameSize(m: Sent)
    requires m.Valid()
    ensures |m.Frame()| > |m.MessageBody()|
    ensures |m.MessageBody()| < 128 ==> |m.Frame()| == 1 + |m.MessageBody()|
  {
    FrameIs(m, |m.MessageBody()|);
  }

  /** Only a notification without number and metadata can give a frame too short for the receiver, and only with at most one byte of text. */
  lemma ShortFrames(m: Sent)
    requires m.Valid()
    ensures |m.Frame()| < 8 <==>
            FieldNum(m.header) == 2 && |m.header.path| + |m.header.name| + |m.payload| < 2
  {
    HeaderSize(m.header, m.ps);
    FrameSize(m);
  }

  // ----- one frame

  /** A body anywhere in the data is parsed into its header and its payload. */
  lemma ParseSent(m: Sent, end: nat)
    requires m.Valid()
    ensures Parse(FRESH, m.MessageBody(), end) == Received(ReadBack(m.header), m.payload, end)
  {
    HeaderRoundTrip(m.header, m.ps, m.payload);
    assert m.MessageBody()[|PackedHeader(m.header, m.ps)|..] == m.payload;
  }

  lemma LengthAt(ahead: bytes, c: nat, n: nat)
    requires n < 0x8000_0000 && Spans(ahead, 0, c, EncodeUint(n))
    ensures UnpackLen(ahead) == (n, c)
  {
    UintAt(ahead, 0, c, n);
  }

  /** What the eight bytes at the start of a length-prefixed body say. */
  lemma PrefixAt(body: bytes, n: nat, stream: bytes, pos: nat, next: nat, end: nat) returns (mid: nat)
    requires n == |body| < 0x8000_0000
    requires Spans(stream, pos, end, EncodeUint(n) + body) && next == pos + 8 <= |stream|
    ensures pos < mid <= next && UnpackLen(stream[pos..next]) == (n, mid - pos)
    ensures Spans(stream, mid, end, body) && end == mid + n
  {
    var prefix := EncodeUint(n);
    mid := Split(stream, pos, end, prefix, body);
    PrefixFits(n);
    Ahead(stream, pos, mid, next, prefix);
    LengthAt(stream[pos..next], |prefix|, n);
  }

  lemma PrefixRead(m: Sent, n: nat, stream: bytes, pos: nat, next: nat, end: nat) returns (mid: nat)
    requires m.Valid() && n == |m.MessageBody()| < 0x8000_0000
    requires Spans(stream, pos, end, m.Frame()) && next == pos + 8 <= |stream|
    ensures pos < mid <= next && UnpackLen(stream[pos..next]) == (n, mid - pos)
    ensures Spans(stream, mid, end, m.MessageBody()) && end == mid + n
  {
    FrameIs(m, n);
    mid := PrefixAt(m.MessageBody(), n, stream, pos, next, end);
  }

  lemma Ahead(stream: bytes, pos: nat, mid: nat, next: nat, s: bytes)
    requires Spans(stream, pos, mid, s) && mid <= next <= |stream|
    ensures Spans(stream[pos..next], 0, |s|, s)
  {
    assert stream[pos..next][0..|s|] == stream[pos..mid];
  }

  /** Whatever room the receive buffer has, a frame of eight bytes or more is taken exactly. */
  lemma TakeFrame(m: Sent, room: nat, stream: bytes, pos: nat, end: nat) returns (mid: nat)
    requires m.Valid() && |m.MessageBody()| < 0x8000_0000 && |m.Frame()| >= 8
    requires Spans(stream, pos, end, m.Frame())
    ensures Take(room, stream, pos) == Chunk(mid, end, end) && Spans(stream, mid, end, m.MessageBody())
  {
    BodySize(m);
    var n, next := |m.MessageBody()|, pos + 8;
    mid := PrefixRead(m, n, stream, pos, next, end);
    TakeWhole(room, stream, pos, next, mid, n, end);
  }

  lemma TakeWhole(room: nat, stream: bytes, pos: nat, next: nat, mid: nat, n: nat, end: nat)
    requires pos <= mid <= next == pos + 8 <= |stream| && UnpackLen(stream[pos..next]) == (n, mid - pos) && n > 0
    requires next <= end == mid + n <= |stream|
    ensures Take(room, stream, pos) == Chunk(mid, end, end)
  {
    TakeFetches(room, stream, pos, next, mid - pos, n);
  }

  lemma TakeFetches(room: nat, stream: bytes, pos: nat, next: nat, c: nat, n: int)
    requires c <= 8 && next == pos + 8 <= |stream| && UnpackLen(stream[pos..next]) == (n, c)
    ensures Take(room, stream, pos) == if n <= 0 then Broken(BadLength, next) else Fetch(room, |stream|, pos + c, next, n)
  {
  }

  lemma FrameAt(m: Sent, room: nat, stream: bytes, pos: nat, end: nat)
    requires m.Valid() && |m.MessageBody()| < 0x8000_0000 && |m.Frame()| >= 8
    requires Spans(stream, pos, end, m.Frame())
    ensures Decode(FRESH, room, stream, pos) == Received(ReadBack(m.header), m.payload, end)
  {
    var mid := TakeFrame(m, room, stream, pos, end);
    ParseSent(m, end);
  }

  lemma TakeShort(m: Sent, room: nat, stream: bytes, pos: nat, next: nat, end: nat) returns (mid: nat)
    requires m.Valid() && |m.Frame()| < 8 && Spans(stream, pos, end, m.Frame()) && next == pos + 8 <= |stream|
    ensures Take(room, stream, pos) == if room < 7 then Broken(Panicked, next) else Chunk(mid, end, next)
    ensures Spans(stream, mid, end, m.MessageBody())
  {
    FrameSize(m);
    BodySize(m);
    OneByte(|m.MessageBody()|);
    mid := PrefixRead(m, |m.MessageBody()|, stream, pos, next, end);
  }

  /**
   * A shorter frame: with no buffer to reuse the read fails; a buffer with room for seven bytes makes it
   * succeed, but the rest of the eight bytes, which belongs to the next frame, is gone.
   */
  lemma ShortFrameAt(m: Sent, room: nat, stream: bytes, pos: nat, end: nat)
    requires m.Valid() && |m.Frame()| < 8 && Spans(stream, pos, end, m.Frame())
    ensures |stream| < pos + 8 ==> Decode(FRESH, room, stream, pos) == Failed(EndOfInput, |stream|)
    ensures |stream| >= pos + 8 && room < 7 ==> Decode(FRESH, room, stream, pos) == Failed(Panicked, pos + 8)
    ensures |stream| >= pos + 8 && room >= 7 ==>
              Decode(FRESH, room, stream, pos) == Received(ReadBack(m.header), m.payload, pos + 8) && pos + 8 > end
  {
    if |stream| >= pos + 8 {
      var mid := TakeShort(m, room, stream, pos, pos + 8, end);
      ParseSent(m, pos + 8);
    }
  }

  lemma OneByte(n: nat)
    requires n < 128
    ensures |EncodeUint(n)| == 1
  {
  }

  lemma SignedLess(n: nat)
    requires n >= 0x8000_0000
    ensures Signed(n, TWO_32) < n
  {
  }

  /** A length prefix of more than eight bytes reads as 0. */
  lemma NoTerminator(ahead: bytes, s: bytes)
    requires Terminated(s) && |s| > 8 == |ahead| && ahead == s[..8]
    ensures UnpackLen(ahead) == (0, 8)
  {
    assert forall i :: 0 <= i < 8 ==> ahead[i] == s[i];
  }

  lemma FirstEight(stream: bytes, pos: nat, next: nat, mid: nat)
    requires next == pos + 8 <= mid <= |stream|
    ensures stream[pos..next] == stream[pos..mid][..8]
  {
  }

  /** What the receiver takes for the length of a body of 2 GiB or more is less than that. */
  lemma LongPrefix(m: Sent, n: nat, stream: bytes, pos: nat, next: nat, end: nat)
    requires n == |m.MessageBody()| && 0x8000_0000 <= n < TWO_63
    requires Spans(stream, pos, end, m.Frame()) && next == pos + 8 <= |stream|
    ensures var (alen, c) := UnpackLen(stream[pos..next]); alen <= 0 || pos + c + alen < end
  {
    FrameIs(m, n);
    var prefix := EncodeUint(n);
    var mid := Split(stream, pos, end, prefix, m.MessageBody());
    if |prefix| <= 8 {
      Ahead(stream, pos, mid, next, prefix);
      UintAt(stream[pos..next], 0, |prefix|, n);
      SignedLess(n);
    } else {
      EncodingShape(n);
      FirstEight(stream, pos, next, mid);
      NoTerminator(stream[pos..next], prefix);
    }
  }

  /** So such a body is never received as a whole. */
  lemma LongFrameAt(m: Sent, room: nat, stream: bytes, pos: nat, end: nat)
    requires m.Valid() && |m.MessageBody()| >= 0x8000_0000 && Spans(stream, pos, end, m.Frame())
    ensures Decode(FRESH, room, stream, pos).Received? ==> Decode(FRESH, room, stream, pos).pos < end
  {
    var n, next := |m.MessageBody()|, pos + 8;
    FrameSize(m);
    LongPrefix(m, n, stream, pos, next, end);
  }

  /**
   * One frame anywhere in a stream, whatever room the receive buffer has: it is read as the message sent,
   * and exactly to its end, if and only if it has at least eight bytes and its body less than 2 GiB.
   */
  lemma FrameExact(m: Sent, room: nat, stream: bytes, pos: nat, end: nat)
    requires m.Valid() && Spans(stream, pos, end, m.Frame())
    ensures Decode(FRESH, room, stream, pos) == Received(ReadBack(m.header), m.payload, end)
       <==> |m.Frame()| >= 8 && |m.MessageBody()| < 0x8000_0000
  {
    if |m.MessageBody()| >= 0x8000_0000 {
      LongFrameAt(m, room, stream, pos, end);
    } else if |m.Frame()| >= 8 {
      FrameAt(m, room, stream, pos, end);
    } else {
      ShortFrameAt(m, room, stream, pos, end);
    }
  }

  // ----- what else can arrive

  /**
   * Any length-prefixed body of less than 2 GiB that takes eight bytes or more with its prefix is taken
   * exactly: its header is read on top of what the message holds, the payload is what lies behind it, and
   * where the header panics so does the read.
   */
  lemma AnyBody(h: HeaderData, room: nat, body: bytes, stream: bytes, pos: nat, end: nat)
    requires 0 < |body| < 0x8000_0000 && end - pos >= 8
    requires Spans(stream, pos, end, EncodeUint(|body|) + body)
    ensures var r := UnpackHeader(h, body, 0);
            Decode(h, room, stream, pos) ==
            if r.Ok? && r.pos <= |body| then Received(r.value, body[r.pos..], end) else Failed(Panicked, end)
  {
    var n, next := |body|, pos + 8;
    var mid := PrefixAt(body, n, stream, pos, next, end);
    TakeWhole(room, stream, pos, next, mid, n, end);
  }

  /** A stream that ends within a frame: the read fails at its end, with the error for that. */
  lemma CutOff(h: HeaderData, room: nat, body: bytes, stream: bytes, pos: nat, missing: bytes)
    requires 0 < |body| < 0x8000_0000 && pos <= |stream| && missing != []
    requires |EncodeUint(|body|) + body| >= 8 && stream[pos..] + missing == EncodeUint(|body|) + body
    ensures Decode(h, room, stream, pos) == Failed(EndOfInput, |stream|)
  {
    if |stream| >= pos + 8 {
      var n, next := |body|, pos + 8;
      var whole := stream + missing;
      assert whole[pos..] == stream[pos..] + missing;
      assert Spans(whole, pos, |whole|, EncodeUint(n) + body);
      var mid := PrefixAt(body, n, whole, pos, next, |whole|);
      assert whole[pos..next] == stream[pos..next];
      TakeFetches(room, stream, pos, next, mid - pos, n);
    }
  }

  /** A length whose low 32 bits are 0 or from 2^31 on is no length, and eight bytes without an end to the number neither. */
  lemma NoLength(h: HeaderData, room: nat, u: uint64, stream: bytes, pos: nat, mid: nat)
    requires pos + 8 <= |stream|
    ensures Spans(stream, pos, mid, EncodeUint(u)) && mid <= pos + 8
            && (u % 0x1_0000_0000 == 0 || u % 0x1_0000_0000 >= 0x8000_0000) ==>
              Decode(h, room, stream, pos) == Failed(BadLength, pos + 8)
    ensures (forall i :: pos <= i < pos + 8 ==> stream[i] >= 128) ==>
              Decode(h, room, stream, pos) == Failed(BadLength, pos + 8)
  {
    var next := pos + 8;
    var ahead := stream[pos..next];
    if Spans(stream, pos, mid, EncodeUint(u)) && mid <= next {
      Ahead(stream, pos, mid, next, EncodeUint(u));
      UintAt(ahead, 0, mid - pos, u);
    }
    assert forall i :: 0 <= i < 8 ==> ahead[i] == stream[pos + i];
  }

  /** The bytes of a request with one byte of payload. */
  lemma FrameExample()
    ensures Sent(HeaderData([97], [98], 0, 1, map[]), [], [0]).Frame() == [12, 4, 3, 1, 97, 3, 1, 98, 1, 0, 2, 1, 0]
  {
    RequestExample();
    FrameIs(Sent(HeaderData([97], [98], 0, 1, map[]), [], [0]), 12);
    assert EncodeUint(12) == [12];
  }

  // ----- streams

  function Frames(ms: seq<Sent>): bytes {
    if ms == [] then [] else ms[0].Frame() + Frames(ms[1..])
  }

  /** Messages read one after the other, each into a fresh header, until one fails. */
  function ReadMany(rooms: seq<nat>, stream: bytes, pos: nat): seq<Received>
    requires pos <= |stream|
  {
    if rooms == [] then [] else
      var r := Decode(FRESH, rooms[0], stream, pos);
      if r.Received? && r.pos <= |stream| then [r] + ReadMany(rooms[1..], stream, r.pos) else [r]
  }

  /** The messages as the receiver should see them, each ending where its frame ends. */
  function AsRead(ms: seq<Sent>, pos: nat): (rs: seq<Received>)
    ensures |rs| == |ms|
  {
    if ms == [] then [] else
      var end := pos + |ms[0].Frame()|;
      [Received(ReadBack(ms[0].header), ms[0].payload, end)] + AsRead(ms[1..], end)
  }

  ghost predicate Deliverable(m: Sent) {
    |m.MessageBody()| < 0x8000_0000 && |m.Frame()| >= 8
  }

  ghost predicate AllValid(ms: seq<Sent>) {
    ms != [] ==> ms[0].Valid() && AllValid(ms[1..])
  }

  ghost predicate AllDeliverable(ms: seq<Sent>) {
    ms != [] ==> Deliverable(ms[0]) && AllDeliverable(ms[1..])
  }

  lemma {:induction false} FramesAt(ms: seq<Sent>, rooms: seq<nat>, stream: bytes, pos: nat, end: nat)
    requires |rooms| == |ms| && AllValid(ms)
    requires Spans(stream, pos, end, Frames(ms))
    ensures ReadMany(rooms, stream, pos) == AsRead(ms, pos) <==> AllDeliverable(ms)
  {
    if ms != [] {
      var m, more, next := ms[0], ms[1..], rooms[1..];
      var mid := Split(stream, pos, end, m.Frame(), Frames(more));
      var r := Received(ReadBack(m.header), m.payload, mid);
      FrameExact(m, rooms[0], stream, pos, mid);
      FramesAt(more, next, stream, mid, end);
      AsReadNext(ms, pos, m, mid);
      ReadNext(rooms, stream, pos, r, AsRead(more, mid));
    }
  }

  /** The last message read ends where the frames end. */
  lemma {:induction false} LastEnd(ms: seq<Sent>, stream: bytes, pos: nat, end: nat)
    requires ms != [] && Spans(stream, pos, end, Frames(ms))
    ensures AsRead(ms, pos)[|ms| - 1].pos == end
  {
    var m, more := ms[0], ms[1..];
    var mid := Split(stream, pos, end, m.Frame(), Frames(more));
    AsReadNext(ms, pos, m, mid);
    LastRead(AsRead(ms, pos), Received(ReadBack(m.header), m.payload, mid), AsRead(more, mid));
    if more != [] {
      LastEnd(more, stream, mid, end);
    }
  }

  lemma LastRead(rs: seq<Received>, r: Received, more: seq<Received>)
    requires rs == [r] + more
    ensures rs[|rs| - 1] == if more == [] then r else more[|more| - 1]
  {
  }

  /** What is read first, and what after it. */
  lemma ReadNext(rooms: seq<nat>, stream: bytes, pos: nat, r: Received, rest: seq<Received>)
    requires pos <= |stream| && rooms != [] && r.Received? && r.pos <= |stream|
    ensures ReadMany(rooms, stream, pos) == [r] + rest <==>
            Decode(FRESH, rooms[0], stream, pos) == r && ReadMany(rooms[1..], stream, r.pos) == rest
  {
    var d := Decode(FRESH, rooms[0], stream, pos);
    if d == r {
      var more := ReadMany(rooms[1..], stream, r.pos);
      assert [r] + more == [r] + rest ==> more == ([r] + more)[1..] == ([r] + rest)[1..] == rest;
    } else {
      assert ReadMany(rooms, stream, pos)[0] == d && ([r] + rest)[0] == r;
    }
  }

  lemma AsReadNext(ms: seq<Sent>, pos: nat, m: Sent, end: nat)
    requires ms != [] && m == ms[0] && end == pos + |m.Frame()|
    ensures AsRead(ms, pos) == [Received(ReadBack(m.header), m.payload, end)] + AsRead(ms[1..], end)
  {
  }

  /**
   * Stream framing: the frames of any sequence of messages, followed by anything, are read back in order,
   * each exactly to its end, if and only if each has at least eight bytes and a body below 2 GiB.
   */
  lemma StreamRoundTrip(ms: seq<Sent>, rooms: seq<nat>, rest: bytes)
    requires |rooms| == |ms| && AllValid(ms)
    ensures ReadMany(rooms, Frames(ms) + rest, 0) == AsRead(ms, 0) <==> AllDeliverable(ms)
    ensures ms != [] ==> AsRead(ms, 0)[|ms| - 1].pos == |Frames(ms)|
  {
    FramesAt(ms, rooms, Frames(ms) + rest, 0, |Frames(ms)|);
    if ms != [] {
      LastEnd(ms, Frames(ms) + rest, 0, |Frames(ms)|);
    }
  }
}
