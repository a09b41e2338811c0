/** Argument lists, replies and return codes: the payloads of requests and responses. */
module Arguments {
  import opened Words
  import opened Varint
  import opened Wire
  import opened Values
  import opened ValueRoundTrip

  /** What a caller passes to be encoded: a list of arguments, or one value that is not a list. */
  datatype Args = List(vs: seq<Value>) | Single(v: Value)

  function EncodeArgs(a: Args): bytes {
    match a
    case List(vs) => [|vs| % 256] + EncodeAll(vs)
    case Single(v) => [1] + Encode(v)
  }

  /** What a caller passes to be decoded into: a list of pointers, or a pointer to a struct. */
  datatype Target = Pointers(ts: seq<Type>) | Struct(fields: seq<Type>)

  /** The values written through the pointers, in order; unreached pointers are left alone. */
  function DecodeList(ts: seq<Type>, n: nat, data: bytes, pos: nat): Option<seq<Value>>
    decreases ts
  {
    if ts == [] || n == 0 then Some([]) else
      match DecodeValue(ts[0], data, pos)
      case Ok(v, p) =>
        (match DecodeList(ts[1..], n - 1, data, p)
         case Some(vs) => Some([v] + vs)
         case None => None)
      case Panic => None
  }

  /** Panics while decoding are recovered into an error, here None. */
  function DecodeArgs(target: Target, data: bytes): Option<seq<Value>> {
    match target
    case Pointers(ts) =>
      if ts == [] then Some([]) else
        (match DecodeByte(data, 0)
         case Ok(n, p) => DecodeList(ts, n, data, p)
         case Panic => None)
    case Struct(ts) =>
      match DecodeStructBody(TStruct(ts), data, 0)
      case Ok(v, _) => if v.VStruct? then Some(v.fields) else None
      case Panic => None
  }

  /** Request and reply shapes agree: a list of arguments fills the first fields of a struct, the rest stay zero. */
  lemma ListIntoStruct(vs: seq<Value>, ts: seq<Type>, more: seq<Type>)
    requires |vs| <= 255 && HaveTypes(vs, ts) && AllPortable(vs)
    ensures DecodeArgs(Struct(ts + more), EncodeArgs(List(vs))) == Some(vs + Zeros(more))
  {
    var data := EncodeArgs(List(vs));
    assert Spans(data, 0, |data|, Body(VStruct(vs)));
    StructAt(vs, ts, more, data, 0, |data|);
  }

  lemma {:induction false} ListAt(vs: seq<Value>, ts: seq<Type>, data: bytes, pos: nat, end: nat)
    requires HaveTypes(vs, ts) && AllPortable(vs) && Spans(data, pos, end, EncodeAll(vs))
    ensures DecodeList(ts, |vs|, data, pos) == Some(vs)
  {
    if vs != [] {
      var mid := Split(data, pos, end, Encode(vs[0]), EncodeAll(vs[1..]));
      ValueAt(vs[0], ts[0], data, pos, mid);
      ListAt(vs[1..], ts[1..], data, mid, end);
      assert vs == [vs[0]] + vs[1..];
    }
  }

  lemma ListLayout(vs: seq<Value>, n: byte)
    requires n == |vs|
    ensures EncodeArgs(List(vs)) == [n] + EncodeAll(vs)
  {
  }

  /** A list of arguments is read back through pointers of the same types. */
  lemma ListIntoPointers(vs: seq<Value>, ts: seq<Type>)
    requires |vs| <= 255 && HaveTypes(vs, ts) && AllPortable(vs)
    ensures DecodeArgs(Pointers(ts), EncodeArgs(List(vs))) == Some(vs)
  {
    if vs != [] {
      ListLayout(vs, |vs|);
      ListDecodes(vs, ts, |vs|, EncodeArgs(List(vs)));
    }
  }

  lemma ListDecodes(vs: seq<Value>, ts: seq<Type>, n: byte, data: bytes)
    requires 0 < n == |vs| && HaveTypes(vs, ts) && AllPortable(vs)
    requires data == [n] + EncodeAll(vs)
    ensures DecodeArgs(Pointers(ts), data) == Some(vs)
  {
    assert Spans(data, 0, |data|, data);
    var mid := Split(data, 0, |data|, [n], EncodeAll(vs));
    ByteAt(data, 0, mid, n);
    ListAt(vs, ts, data, mid, |data|);
    CountedList(ts, n, data, mid);
  }

  lemma CountedList(ts: seq<Type>, n: nat, data: bytes, p: nat)
    requires ts != [] && DecodeByte(data, 0) == Ok(n, p)
    ensures DecodeArgs(Pointers(ts), data) == DecodeList(ts, n, data, p)
  {
  }

  /** As many arguments are read as there are on the wire and pointers to take them. */
  lemma {:induction false} SomeAt(vs: seq<Value>, ts: seq<Type>, k: nat, data: bytes, pos: nat, end: nat)
    requires k <= |vs| && k <= |ts| && (k == |vs| || k == |ts|) && HaveTypes(vs[..k], ts[..k]) && AllPortable(vs[..k])
    requires Spans(data, pos, end, EncodeAll(vs))
    ensures DecodeList(ts, |vs|, data, pos) == Some(vs[..k])
    decreases k
  {
    if k > 0 {
      var v, rest, t, types, l := vs[0], vs[1..], ts[0], ts[1..], k - 1;
      CutFirst(vs, k, l, v, rest);
      CutFirst(ts, k, l, t, types);
      var mid := Split(data, pos, end, Encode(v), EncodeAll(rest));
      ValueAt(v, t, data, pos, mid);
      SomeAt(rest, types, l, data, mid, end);
      NextPointer(ts, t, types, |rest|, data, pos, v, mid, rest[..l]);
    }
  }

  lemma CutFirst<T>(s: seq<T>, k: nat, l: nat, x: T, rest: seq<T>)
    requires 0 < k <= |s| && l == k - 1 && x == s[0] && rest == s[1..]
    ensures s[..k] == [x] + rest[..l] && s[..k][0] == x && s[..k][1..] == rest[..l]
  {
  }

  lemma NextPointer(ts: seq<Type>, t: Type, types: seq<Type>, n: nat, data: bytes, pos: nat, v: Value, mid: nat, more: seq<Value>)
    requires ts == [t] + types && DecodeValue(t, data, pos) == Ok(v, mid) && DecodeList(types, n, data, mid) == Some(more)
    ensures DecodeList(ts, n + 1, data, pos) == Some([v] + more)
  {
    assert ts[1..] == types;
  }

  /** More pointers than arguments stay untouched at the end; more arguments than pointers are not read. */
  lemma ListIntoSomePointers(vs: seq<Value>, ts: seq<Type>, k: nat)
    requires |vs| <= 255 && k <= |vs| && k <= |ts| && (k == |vs| || k == |ts|)
    requires HaveTypes(vs[..k], ts[..k]) && AllPortable(vs[..k])
    ensures DecodeArgs(Pointers(ts), EncodeArgs(List(vs))) == Some(vs[..k])
  {
    if ts != [] {
      var n: byte, data := |vs|, EncodeArgs(List(vs));
      ListLayout(vs, n);
      assert Spans(data, 0, |data|, data);
      var mid := Split(data, 0, |data|, [n], EncodeAll(vs));
      ByteAt(data, 0, mid, n);
      SomeAt(vs, ts, k, data, mid, |data|);
      CountedList(ts, n, data, mid);
    }
  }

  /** The bytes of two arguments, and of a reply with return code 200. */
  lemma PayloadExamples()
    ensures EncodeArgs(List([VInt(W64, 5), VString([97])])) == [2, 2, 5, 3, 1, 97]
    ensures EncodeArgs(Single(VString([97]))) == [1, 3, 1, 97]
    ensures EncodeRetArgs(200, [1, 3, 1, 97]) == [200, 1, 1, 3, 1, 97]
  {
    var vs := [VInt(W64, 5), VString([97])];
    assert vs[1..] == [VString([97])] && vs[1..][1..] == [];
    assert EncodeUint(1) == [1] && EncodeUint(5) == [5];
    assert EncodeUint(200) == [200] + EncodeUint(1) == [200, 1];
    assert Encode(vs[0]) == [2, 5] && Encode(vs[1]) == [3, 1, 97];
    assert EncodeAll(vs) == Encode(vs[0]) + (Encode(vs[1]) + []);
  }

  // ----- return codes

  const NO_RETCODE: int := -90006

  /** The payload of a reply: the return code as a sign-extended number, then the encoded reply. */
  function EncodeRetArgs(retcode: int, data: bytes): bytes {
    EncodeUint(Unsigned64(retcode)) + data
  }

  /** What the client makes of a payload: the code and what is left; fewer than four bytes are not touched. */
  function UnpackRetCode(payload: bytes): (int, bytes) {
    if |payload| < 4 then (NO_RETCODE, payload) else
      var (u, p) := DecodeUint(payload, 0);
      (Signed(u, TWO_32), payload[p..])
  }

  /** A 32-bit return code and its data are recovered exactly when they take at least four bytes together. */
  lemma RetCodeExact(retcode: int, data: bytes)
    requires -0x8000_0000 <= retcode < 0x8000_0000
    ensures UnpackRetCode(EncodeRetArgs(retcode, data)) == (retcode, data)
       <==> |EncodeRetArgs(retcode, data)| >= 4
  {
    var u := Unsigned64(retcode);
    var code, payload := EncodeUint(u), EncodeRetArgs(retcode, data);
    assert Spans(payload, 0, |code|, code);
    UintAt(payload, 0, |code|, u);
    SignedRoundTrip(retcode);
    assert payload[|code|..] == data;
  }

  lemma EncodedSize(v: Value)
    ensures |Encode(v)| >= 2
  {
  }

  /**
   * Replies: the payload of one non-list reply always takes four bytes or more, so every return code
   * is recovered with exactly the encoded reply, which decodes into a one-element list.
   */
  lemma ReplyRoundTrip(retcode: int, v: Value, t: Type)
    requires -0x8000_0000 <= retcode < 0x8000_0000
    requires HasType(v, t) && Portable(v)
    ensures |EncodeRetArgs(retcode, EncodeArgs(Single(v)))| >= 4
    ensures UnpackRetCode(EncodeRetArgs(retcode, EncodeArgs(Single(v)))) == (retcode, EncodeArgs(Single(v)))
    ensures DecodeArgs(Pointers([t]), EncodeArgs(Single(v))) == Some([v])
  {
    EncodedSize(v);
    RetCodeExact(retcode, EncodeArgs(Single(v)));
    SingleIsList(v);
    assert HaveTypes([v], [t]) && AllPortable([v]);
    ListIntoPointers([v], [t]);
  }

  lemma SingleIsList(v: Value)
    ensures EncodeArgs(Single(v)) == EncodeArgs(List([v]))
  {
    assert EncodeAll([v][1..]) == [] && EncodeAll([v]) == Encode(v);
  }

  /** How many bytes the number in front of a reply takes: two for small return codes, ten for negative ones. */
  lemma CodeSize(u: uint64)
    ensures |EncodeUint(u)| <= 2 <==> u < 16384
  {
    assert Pow128(2) == 128 * 128 * Pow128(0);
    EncodingLength(u);
    if |EncodeUint(u)| <= 2 {
      PowersGrow(|EncodeUint(u)|, 2);
    } else {
      PowersGrow(2, |EncodeUint(u)| - 1);
    }
  }

  lemma ReplySize(vs: seq<Value>)
    ensures |EncodeArgs(List(vs))| >= if vs == [] then 1 else 3
    ensures vs == [] ==> |EncodeArgs(List(vs))| == 1
  {
    if vs != [] {
      EncodedSize(vs[0]);
    }
  }

  /**
   * Replies that are lists: the code and the data come back exactly unless the list is empty and the code
   * is between 0 and 16383; then the payload is too short and the code is lost.
   */
  lemma ReplyListExact(retcode: int, vs: seq<Value>)
    requires -0x8000_0000 <= retcode < 0x8000_0000
    ensures UnpackRetCode(EncodeRetArgs(retcode, EncodeArgs(List(vs)))) == (retcode, EncodeArgs(List(vs)))
       <==> !(vs == [] && 0 <= retcode < 16384)
    ensures vs == [] && 0 <= retcode < 16384 ==>
              UnpackRetCode(EncodeRetArgs(retcode, EncodeArgs(List(vs)))) == (-90006, EncodeRetArgs(retcode, EncodeArgs(List(vs))))
  {
    CodeSize(Unsigned64(retcode));
    ReplySize(vs);
    RetCodeExact(retcode, EncodeArgs(List(vs)));
  }
}
