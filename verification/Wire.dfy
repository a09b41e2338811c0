/** The pieces all wire formats share: bytes, strings, and type descriptors. */
module Wire {
  import opened Words
  import opened Varint

  /** A read that either yields a value and the next position, or panics. */
  datatype Parsed<+T> = Ok(value: T, pos: nat) | Panic {
    predicate IsFailure() {
      Panic?
    }

    function PropagateFailure<U>(): Parsed<U>
      requires Panic?
    {
      Panic
    }

    function Extract(): (T, nat)
      requires Ok?
    {
      (value, pos)
    }
  }

  const FT_PACK: byte := 0
  const FT_CHAR: byte := 1
  const FT_NUMBER: byte := 2
  const FT_STRING: byte := 3
  const FT_ARRAY: byte := 4
  const FT_MAP: byte := 5
  const FT_STRUCT: byte := 6
  const FT_FLOAT: byte := 7
  const FT_BYTES: byte := 8
  const FT_DATE: byte := 9

  /** The bytes `s` stand in the data from `pos` to `end`. */
  ghost predicate Spans(data: bytes, pos: nat, end: nat, s: bytes) {
    pos <= end <= |data| && data[pos..end] == s
  }

  lemma Split(data: bytes, pos: nat, end: nat, a: bytes, b: bytes) returns (mid: nat)
    requires Spans(data, pos, end, a + b)
    ensures Spans(data, pos, mid, a) && Spans(data, mid, end, b)
  {
    mid := pos + |a|;
    assert data[pos..mid] == (a + b)[..|a|] == a;
    assert data[mid..end] == (a + b)[|a|..] == b;
  }

  lemma Join(data: bytes, pos: nat, mid: nat, end: nat, a: bytes, b: bytes)
    requires Spans(data, pos, mid, a) && Spans(data, mid, end, b)
    ensures Spans(data, pos, end, a + b)
  {
    assert data[pos..end] == data[pos..mid] + data[mid..end];
  }

  lemma ByteAt(data: bytes, pos: nat, end: nat, b: byte)
    requires Spans(data, pos, end, [b])
    ensures DecodeByte(data, pos) == Ok(b, end)
  {
    assert data[pos..end][0] == b;
  }

  lemma Embedded(before: bytes, s: bytes, rest: bytes)
    ensures Spans(before + s + rest, |before|, |before + s|, s)
  {
  }

  function DecodeByte(data: bytes, pos: nat): Parsed<byte> {
    if pos < |data| then Ok(data[pos], pos + 1) else Panic
  }

  lemma UintAt(data: bytes, pos: nat, end: nat, v: uint64)
    requires Spans(data, pos, end, EncodeUint(v))
    ensures DecodeUint(data, pos) == (v, end)
  {
    DecodeEncoded(data, pos, end, v);
  }

  /** Byte strings and text: the length as a number, then the bytes. */
  function EncodeString(s: bytes): bytes {
    EncodeUint(Unsigned64(|s|)) + s
  }

  /** Reads a length as a signed 64-bit number; a negative or too large one panics, zero reads nothing. */
  function DecodeString(data: bytes, pos: nat): (r: Parsed<bytes>)
    ensures r.Ok? ==> r.pos >= pos
  {
    var (u, p) := DecodeUint(data, pos);
    var n := Signed(u, TWO_64);
    if n == 0 then Ok([], p)
    else if n < 0 || p + n > |data| then Panic
    else Ok(data[p..p + n], p + n)
  }

  lemma StringAt(data: bytes, pos: nat, end: nat, s: bytes)
    requires |s| < TWO_63 && Spans(data, pos, end, EncodeString(s))
    ensures DecodeString(data, pos) == Ok(s, end)
  {
    var mid := Split(data, pos, end, EncodeUint(|s|), s);
    UintAt(data, pos, mid, |s|);
  }

  /** Behind a length that is 0, that the data hold, that they do not, or that is negative as a signed number. */
  lemma StringExact(data: bytes, pos: nat, mid: nat, u: uint64)
    requires Spans(data, pos, mid, EncodeUint(u))
    ensures u == 0 ==> DecodeString(data, pos) == Ok([], mid)
    ensures 0 < u < TWO_63 && mid + u <= |data| ==> DecodeString(data, pos) == Ok(data[mid..mid + u], mid + u)
    ensures (u < TWO_63 && mid + u > |data|) || u >= TWO_63 ==> DecodeString(data, pos) == Panic
  {
    UintAt(data, pos, mid, u);
    AsSigned(u);
    LengthRead(data, pos, mid, u, Signed(u, TWO_64));
  }

  lemma AsSigned(u: uint64)
    ensures Signed(u, TWO_64) == if u < TWO_63 then u else u - TWO_64
  {
  }

  lemma LengthRead(data: bytes, pos: nat, mid: nat, u: uint64, n: int)
    requires DecodeUint(data, pos) == (u, mid) && Signed(u, TWO_64) == n
    ensures DecodeString(data, pos) == if n == 0 then Ok([], mid) else
              if n < 0 || mid + n > |data| then Panic else Ok(data[mid..mid + n], mid + n)
  {
  }

  // ----- type descriptors

  /** A type descriptor: arrays carry one nested descriptor, maps two, everything else none. */
  datatype Field = Field(base: byte, sub: seq<Field>)

  predicate WellFormed(f: Field) {
    |f.sub| == (if f.base == FT_ARRAY then 1 else if f.base == FT_MAP then 2 else 0)
    && forall g :: g in f.sub ==> WellFormed(g)
  }

  function Flatten(f: Field): bytes {
    [f.base] + FlattenAll(f.sub)
  }

  function FlattenAll(fs: seq<Field>): bytes {
    if fs == [] then [] else Flatten(fs[0]) + FlattenAll(fs[1..])
  }

  function UnpackField(data: bytes, pos: nat): (r: Parsed<Field>)
    ensures r.Ok? ==> pos < r.pos <= |data| && WellFormed(r.value)
    decreases |data| - pos
  {
    if pos >= |data| then Panic
    else if data[pos] == FT_ARRAY then
      match UnpackField(data, pos + 1)
      case Ok(f, p) => Ok(Field(FT_ARRAY, [f]), p)
      case Panic => Panic
    else if data[pos] == FT_MAP then
      match UnpackField(data, pos + 1)
      case Ok(k, p) =>
        (match UnpackField(data, p)
         case Ok(v, q) => Ok(Field(FT_MAP, [k, v]), q)
         case Panic => Panic)
      case Panic => Panic
    else Ok(Field(data[pos], []), pos + 1)
  }

  /** What is read is what is consumed. */
  lemma {:induction false} UnpackConsumes(data: bytes, pos: nat)
    requires UnpackField(data, pos).Ok?
    ensures var r := UnpackField(data, pos); Spans(data, pos, r.pos, Flatten(r.value))
    decreases |data| - pos
  {
    var next, end := pos + 1, UnpackField(data, pos).pos;
    assert Spans(data, pos, next, [data[pos]]);
    if data[pos] == FT_ARRAY {
      var f := UnpackField(data, next);
      UnpackConsumes(data, next);
      FlattenOne(f.value);
      Join(data, pos, next, end, [data[pos]], Flatten(f.value));
    } else if data[pos] == FT_MAP {
      var k := UnpackField(data, next);
      UnpackConsumes(data, next);
      var v := UnpackField(data, k.pos);
      UnpackConsumes(data, k.pos);
      FlattenPair(k.value, v.value);
      Join(data, next, k.pos, end, Flatten(k.value), Flatten(v.value));
      Join(data, pos, next, end, [data[pos]], Flatten(k.value) + Flatten(v.value));
    } else {
      assert Flatten(Field(data[pos], [])) == [data[pos]];
    }
  }

  lemma FlattenOne(f: Field)
    ensures FlattenAll([f]) == Flatten(f)
  {
    assert [f][1..] == [];
  }

  lemma FlattenPair(k: Field, v: Field)
    ensures FlattenAll([k, v]) == Flatten(k) + Flatten(v)
  {
    FlattenOne(v);
    assert [k, v][1..] == [v];
  }

  /** What is written is what is read. */
  lemma {:induction false} FieldAt(data: bytes, pos: nat, end: nat, f: Field)
    requires WellFormed(f) && Spans(data, pos, end, Flatten(f))
    ensures UnpackField(data, pos) == Ok(f, end)
    decreases f
  {
    var next := Split(data, pos, end, [f.base], FlattenAll(f.sub));
    ByteAt(data, pos, next, f.base);
    if f.base == FT_ARRAY {
      var g := f.sub[0];
      assert f.sub == [g];
      FlattenOne(g);
      FieldAt(data, next, end, g);
    } else if f.base == FT_MAP {
      var k, v := f.sub[0], f.sub[1];
      assert f.sub == [k, v];
      FlattenPair(k, v);
      var mid := Split(data, next, end, Flatten(k), Flatten(v));
      FieldAt(data, next, mid, k);
      FieldAt(data, mid, end, v);
    }
  }

  /**
   * Reading a descriptor from arbitrary bytes yields `f` and stops at `end` exactly when `f` is a
   * descriptor whose flattening stands between; when no descriptor stands there, the input runs out.
   */
  lemma UnpackFieldExact(data: bytes, pos: nat, end: nat, f: Field)
    ensures UnpackField(data, pos) == Ok(f, end) <==> WellFormed(f) && Spans(data, pos, end, Flatten(f))
  {
    if WellFormed(f) && Spans(data, pos, end, Flatten(f)) {
      FieldAt(data, pos, end, f);
    }
    if UnpackField(data, pos) == Ok(f, end) {
      UnpackConsumes(data, pos);
    }
  }
}
