/** The message object: encoded into recycled buffers, decoded from a stream. */
module Messages {
  import opened Words
  import opened Varint
  import opened Wire
  import opened Headers
  import opened Framing
  import opened Arguments
  import opened PackDatas
  import opened MessageHeaders
  import opened BufferPools

  /** The receiving end of a connection: what will arrive, and how much of it has been taken. */
  class StreamReader {
    const stream: bytes
    var pos: nat

    ghost predicate Valid()
      reads this
    {
      pos <= |stream|
    }

    constructor (stream: bytes)
      ensures Valid() && this.stream == stream && pos == 0
    {
      this.stream, pos := stream, 0;
    }

    /** Exactly `n` bytes, or an error once the stream is used up. */
    method ReadFull(n: nat) returns (r: Option<bytes>)
      requires Valid()
      modifies this
      ensures Valid()
      ensures if old(pos) + n <= |stream| then r == Some(stream[old(pos)..old(pos) + n]) && pos == old(pos) + n
              else r == None && pos == |stream|
    {
      if pos + n > |stream| {
        pos := |stream|;
        return None;
      }
      r := Some(stream[pos..pos + n]);
      pos := pos + n;
    }
  }

  /** The sending end: every write puts some first part of the bytes on the wire, all of them unless it fails. */
  class StreamWriter {
    var written: bytes

    constructor ()
      ensures written == []
    {
      written := [];
    }

    method Write(s: bytes) returns (n: nat, failed: bool)
      modifies this
      ensures n <= |s| && written == old(written) + s[..n] && (!failed ==> n == |s|)
    {
      n, failed :| n <= |s| && (!failed ==> n == |s|);
      written := written + s[..n];
    }
  }

  /** Copies `s` into the array from `at` on. */
  method CopyInto(arr: array<byte>, at: nat, s: bytes)
    requires at + |s| <= arr.Length
    modifies arr
    ensures arr[..at + |s|] == old(arr[..at]) + s
    ensures arr[at + |s|..] == old(arr[at + |s|..])
  {
    for i := 0 to |s|
      invariant forall j :: 0 <= j < arr.Length && !(at <= j < at + i) ==> arr[j] == old(arr[j])
      invariant forall j :: 0 <= j < i ==> arr[at + j] == s[j]
    {
      arr[at + i] := s[i];
    }
  }

  /** Three pieces one after the other, over whatever the buffer held. */
  method Assemble(arr: array<byte>, a: bytes, b: bytes, c: bytes)
    requires |a| + |b| + |c| <= arr.Length
    modifies arr
    ensures arr[..|a| + |b| + |c|] == a + (b + c)
  {
    var i := |a|;
    var j := i + |b|;
    CopyInto(arr, 0, a);
    assert arr[..i] == a;
    CopyInto(arr, i, b);
    assert arr[..j] == a + b;
    CopyInto(arr, j, c);
    assert a + b + c == a + (b + c);
  }

  method PackLen(n: nat) returns (s: bytes)
    ensures s == EncodeUint(Unsigned64(n))
  {
    var packer := new PackData();
    packer.PackNum(n);
    s := packer.Data();
  }

  method UnpackLength(ahead: bytes) returns (n: int, rest: bytes)
    requires |ahead| > 0
    ensures UnpackLen(ahead) == (n, |ahead| - |rest|) && |rest| < |ahead| && rest == ahead[|ahead| - |rest|..]
  {
    var packer := new PackData();
    packer.ResetBytes(ahead);
    var u := packer.UnpackUint64();
    n := Signed(u, TWO_32);
    rest := packer.SurData();
  }

  class Message {
    var header: Header
    var payload: bytes
    /** The receive buffer; messages that are used again keep it. */
    var data: array<byte>
    var retcode: int

    constructor ()
      ensures fresh(header) && fresh(data) && header.Data() == FRESH
      ensures payload == [] && data.Length == 0 && retcode == 0
    {
      header := new Header();
      payload, data, retcode := [], new byte[0], 0;
    }

    /** Everything but the receive buffer starts anew. */
    method Reset()
      modifies this
      ensures fresh(header) && header.Data() == FRESH && payload == [] && retcode == 0 && data == old(data)
    {
      header := new Header();
      payload, retcode := [], 0;
    }

    /**
     * The frame of this message in a buffer from the pool, whatever the buffer held before. The metadata
     * are in the order in which the map happened to be walked.
     */
    method EncodeSlicePointer(pool: LimitedPool) returns (b: Buffer, ghost ps: seq<Pair>)
      requires pool.Valid()
      modifies pool, pool.Stored(), pool.Memory()
      ensures pool.Valid() && b !in old(pool.held) && pool.held == old(pool.held) + {b}
      ensures b in old(pool.Stored()) || (fresh(b) && fresh(b.arr))
      ensures Lists(ps, header.metadata)
      ensures b.Valid() && b.Content() == Sent(header.Data(), ps, payload).Frame()
    {
      var prefix, head;
      prefix, head, ps := PackFrame();
      b := GetFilled(pool, prefix, head, payload);
    }

    /** The first two pieces of the frame. */
    method PackFrame() returns (prefix: bytes, head: bytes, ghost ps: seq<Pair>)
      ensures Lists(ps, header.metadata)
      ensures prefix + (head + payload) == Sent(header.Data(), ps, payload).Frame()
    {
      head := header.PackHeader();
      ps :| Lists(ps, header.metadata) && head == PackedHeader(header.Data(), ps);
      var n := |head| + |payload|;
      prefix := PackLen(n);
      FrameLayout(Sent(header.Data(), ps, payload), n, prefix, head);
    }

    /** Writes one frame, or a first part of it; the buffer goes back to the pool either way. */
    method WriteTo(w: StreamWriter, pool: LimitedPool) returns (n: nat, failed: bool, ghost ps: seq<Pair>)
      requires pool.Valid()
      modifies w, pool, pool.Stored(), pool.Memory()
      ensures pool.Valid() && pool.held == old(pool.held)
      ensures Lists(ps, header.metadata)
      ensures var frame := Sent(header.Data(), ps, payload).Frame();
        && n <= |frame| && w.written == old(w.written) + frame[..n] && (!failed ==> n == |frame|)
    {
      var b;
      b, ps := EncodeSlicePointer(pool);
      n, failed := WriteBuffer(b, w, pool);
    }

    /** Reads the next message from the stream into this one; None is success. */
    method Decode(r: StreamReader) returns (err: Option<Failure>)
      requires r.Valid()
      modifies this, header, data, r
      ensures r.Valid() && header == old(header)
      ensures match Framing.Decode(old(header.Data()), old(data.Length), r.stream, old(r.pos))
              case Received(h, body, p) => err == None && header.Data() == h && payload == body && r.pos == p
              case Failed(why, p) => err == Some(why) && r.pos == p
      ensures data == old(data) || fresh(data)
    {
      var body;
      err, body := TakeBody(r);
      if err != None {
        return;
      }
      var packer := new PackData();
      packer.ResetBytes(body);
      var ok := header.UnpackData(packer);
      if !ok || packer.curPos > |packer.value| {
        return Some(Panicked);
      }
      payload := packer.SurData();
    }

    /** The next body, copied piece by piece into the receive buffer. */
    method TakeBody(r: StreamReader) returns (err: Option<Failure>, body: bytes)
      requires r.Valid()
      modifies this`data, data, r
      ensures r.Valid() && (data == old(data) || fresh(data))
      ensures match Take(old(data.Length), r.stream, old(r.pos))
              case Chunk(from, to, next) => err == None && body == r.stream[from..to] && r.pos == next
              case Broken(why, next) => err == Some(why) && r.pos == next
    {
      ghost var pos := r.pos;
      var known, alen, left := ReadAhead(r);
      if !known {
        return Some(EndOfInput), [];
      }
      ghost var c := 8 - |left|;
      TakeFetches(data.Length, r.stream, pos, r.pos, c, alen);
      if alen <= 0 {
        return Some(BadLength), [];
      }
      err, body := FetchBody(r, left, alen, pos + c);
    }

    /** The length, and what was read beyond it. */
    static method ReadAhead(r: StreamReader) returns (known: bool, alen: int, left: bytes)
      requires r.Valid()
      modifies r
      ensures r.Valid() && known == (old(r.pos) + 8 <= |r.stream|) && (!known ==> r.pos == |r.stream|)
      ensures known ==> r.pos == old(r.pos) + 8 && |left| < 8 && Spans(r.stream, r.pos - |left|, r.pos, left)
      ensures known ==> UnpackLen(r.stream[old(r.pos)..r.pos]) == (alen, 8 - |left|)
    {
      var ahead := r.ReadFull(8);
      if ahead == None {
        return false, 0, [];
      }
      known := true;
      alen, left := UnpackLength(ahead.value);
    }

    method FetchBody(r: StreamReader, left: bytes, alen: nat, ghost mid: nat) returns (err: Option<Failure>, body: bytes)
      requires r.Valid() && alen > 0 && Spans(r.stream, mid, r.pos, left)
      modifies this`data, data, r
      ensures r.Valid() && (data == old(data) || fresh(data))
      ensures match Fetch(old(data.Length), |r.stream|, mid, old(r.pos), alen)
              case Chunk(from, to, next) => err == None && body == r.stream[from..to] && r.pos == next
              case Broken(why, next) => err == Some(why) && r.pos == next
    {
      if data.Length < alen {
        data := new byte[alen];
      }
      if |left| > data.Length {
        return Some(Panicked), [];
      }
      err, body := Gather(r, left, alen, mid);
    }

    /** The bytes at hand and the missing ones go into the buffer one after the other. */
    method Gather(r: StreamReader, left: bytes, alen: nat, ghost mid: nat) returns (err: Option<Failure>, body: bytes)
      requires r.Valid() && Spans(r.stream, mid, r.pos, left) && alen <= data.Length && |left| <= data.Length
      modifies data, r
      ensures r.Valid() && (err == None <==> mid + alen <= |r.stream|)
      ensures if err == None then body == r.stream[mid..mid + alen] && r.pos == Later(old(r.pos), mid + alen)
              else err == Some(EndOfInput) && r.pos == |r.stream|
    {
      ghost var next, end := r.pos, mid + alen;
      var llen := |left|;
      CopyInto(data, 0, left);
      if alen > llen {
        var more := r.ReadFull(alen - llen);
        if more == None {
          return Some(EndOfInput), [];
        }
        CopyInto(data, llen, more.value);
        Join(r.stream, mid, next, end, left, more.value);
      } else {
        Shorter(r.stream, mid, end, next, left, data[..]);
      }
      err, body := None, data[..alen];
    }

    /** Splits the return code off the payload. */
    method TakeRetCode()
      modifies this`retcode, this`payload
      ensures (retcode, payload) == UnpackRetCode(old(payload))
    {
      if |payload| < 4 {
        retcode := NO_RETCODE;
        return;
      }
      var packer := new PackData();
      packer.ResetBytes(payload);
      var u := packer.UnpackUint64();
      retcode := Signed(u, TWO_32);
      payload := packer.SurData();
    }
  }

  /** Writes what a buffer holds, or a first part of it, and gives the buffer back. */
  method WriteBuffer(b: Buffer, w: StreamWriter, pool: LimitedPool) returns (n: nat, failed: bool)
    requires pool.Valid() && b in pool.held && b.Valid()
    modifies w, pool, b`len
    ensures pool.Valid() && pool.held == old(pool.held) - {b}
    ensures var s := old(b.Content());
      n <= |s| && w.written == old(w.written) + s[..n] && (!failed ==> n == |s|)
  {
    n, failed := w.Write(b.arr[..b.len]);
    pool.Put(b);
  }

  ghost function Later(i: nat, j: nat): nat {
    if i < j then j else i
  }

  method GetFilled(pool: LimitedPool, prefix: bytes, head: bytes, payload: bytes) returns (b: Buffer)
    requires pool.Valid()
    modifies pool, pool.Stored(), pool.Memory()
    ensures pool.Valid() && b !in old(pool.held) && pool.held == old(pool.held) + {b}
    ensures b in old(pool.Stored()) || (fresh(b) && fresh(b.arr))
    ensures b.Valid() && b.Content() == prefix + (head + payload)
  {
    var size := |prefix| + |head| + |payload|;
    b := pool.Get(size);
    Assemble(b.arr, prefix, head, payload);
  }

  lemma Shorter(stream: bytes, mid: nat, end: nat, next: nat, left: bytes, whole: bytes)
    requires Spans(stream, mid, next, left) && mid <= end <= next && |left| <= |whole| && whole[..|left|] == left
    ensures whole[..end - mid] == stream[mid..end]
  {
    var k := end - mid;
    assert whole[..k] == whole[..|left|][..k];
    assert stream[mid..end] == stream[mid..next][..k];
  }

  lemma FrameLayout(m: Sent, n: nat, prefix: bytes, head: bytes)
    requires head == PackedHeader(m.header, m.ps) && n == |head| + |m.payload| && prefix == EncodeUint(Unsigned64(n))
    ensures prefix + (head + m.payload) == m.Frame()
  {
    assert |m.MessageBody()| == n;
  }
}
