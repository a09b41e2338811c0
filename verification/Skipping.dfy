/** Skipping over a value without decoding it, which has to agree with the encoder for every value. */
module Skipping {
  import opened Words
  import opened Varint
  import opened Wire
  import opened Values
  import opened ValueRoundTrip

  function Left(data: bytes, pos: nat): nat {
    if pos <= |data| then |data| - pos else 0
  }

  function Depth(f: Field): nat
    requires WellFormed(f)
  {
    if f.base == FT_ARRAY then 1 + Depth(f.sub[0])
    else if f.base == FT_MAP then 1 + Depth(f.sub[0]) + Depth(f.sub[1])
    else 0
  }

  /** Where the cursor stands after skipping one described value; a character is skipped unseen. */
  function SkipBody(f: Field, data: bytes, pos: nat): (r: Parsed<()>)
    requires WellFormed(f)
    ensures r.Ok? ==> r.pos >= pos
    decreases Left(data, pos), Depth(f), 0
  {
    if f.base == FT_CHAR then Ok((), pos + 1)
    else if f.base == FT_NUMBER || f.base == FT_FLOAT || f.base == FT_DATE then Ok((), DecodeUint(data, pos).1)
    else if f.base == FT_STRING || f.base == FT_BYTES then SkipString(data, pos)
    else if f.base == FT_STRUCT then
      match DecodeByte(data, pos)
      case Ok(n, p) => SkipFields(n, data, p)
      case Panic => Panic
    else if f.base == FT_ARRAY then
      var (n, p) := DecodeCount(data, pos);
      SkipItems(f.sub[0], n, data, p)
    else if f.base == FT_MAP then
      var (n, p) := DecodeCount(data, pos);
      SkipEntries(f.sub[0], f.sub[1], n, data, p)
    else Ok((), pos)
  }

  function SkipString(data: bytes, pos: nat): (r: Parsed<()>)
    ensures r.Ok? ==> r.pos >= pos
  {
    match DecodeString(data, pos)
    case Ok(_, p) => Ok((), p)
    case Panic => Panic
  }

  /** A descriptor and then the value it describes. */
  function SkipValue(data: bytes, pos: nat): (r: Parsed<()>)
    ensures r.Ok? ==> r.pos > pos
    decreases Left(data, pos), 0, 0
  {
    match UnpackField(data, pos)
    case Ok(f, p) => SkipBody(f, data, p)
    case Panic => Panic
  }

  function SkipFields(n: nat, data: bytes, pos: nat): (r: Parsed<()>)
    ensures r.Ok? ==> r.pos >= pos
    decreases Left(data, pos), 0, n + 1
  {
    if n == 0 then Ok((), pos) else
      match SkipValue(data, pos)
      case Ok(_, p) => SkipFields(n - 1, data, p)
      case Panic => Panic
  }

  function SkipItems(f: Field, n: int, data: bytes, pos: nat): (r: Parsed<()>)
    requires WellFormed(f)
    ensures r.Ok? ==> r.pos >= pos
    decreases Left(data, pos), Depth(f), if n > 0 then n else 0
  {
    if n <= 0 then Ok((), pos) else
      match SkipBody(f, data, pos)
      case Ok(_, p) => SkipItems(f, n - 1, data, p)
      case Panic => Panic
  }

  function SkipEntries(k: Field, v: Field, n: int, data: bytes, pos: nat): (r: Parsed<()>)
    requires WellFormed(k) && WellFormed(v)
    ensures r.Ok? ==> r.pos >= pos
    decreases Left(data, pos), Depth(k) + Depth(v), if n > 0 then n else 0
  {
    if n <= 0 then Ok((), pos) else
      match SkipBody(k, data, pos)
      case Ok(_, p) =>
        (match SkipBody(v, data, p)
         case Ok(_, q) => SkipEntries(k, v, n - 1, data, q)
         case Panic => Panic)
      case Panic => Panic
  }

  /** What the encoder writes faithfully, floats included: tagged elements, and counts that fit. */
  predicate Encodable(v: Value) {
    match v
    case VUint(w, u) => u < Modulus(w)
    case VString(s) => |s| < TWO_63
    case VBytes(s) => |s| < TWO_63
    case VStruct(vs) => |vs| <= 255 && AllEncodable(vs)
    case VSlice(t, vs) =>
      ElementTag(t).Some? && |vs| < 0x8000_0000 && AllEncodable(vs) && AllHaveType(vs, t)
    case VMap(k, t, es) =>
      ElementTag(k).Some? && ElementTag(t).Some? && |es| < 0x8000_0000
      && EntriesEncodable(es) && EntriesHaveType(es, k, t)
    case _ => true
  }

  predicate AllEncodable(vs: seq<Value>) {
    vs != [] ==> Encodable(vs[0]) && AllEncodable(vs[1..])
  }

  predicate EntryEncodable(e: Entry) {
    Encodable(e.key) && Encodable(e.value)
  }

  predicate EntriesEncodable(es: seq<Entry>) {
    es != [] ==> EntryEncodable(es[0]) && EntriesEncodable(es[1..])
  }

  /** Skipping agrees with the encoder: it advances by exactly the encoding of any encodable value. */
  lemma {:induction false} SkipsValue(v: Value, data: bytes, pos: nat, end: nat)
    requires Encodable(v) && Spans(data, pos, end, Encode(v))
    ensures SkipValue(data, pos) == Ok((), end)
    decreases v, 1
  {
    var mid := Split(data, pos, end, Descriptor(v), Body(v));
    FieldOfFlattens(v);
    FieldAt(data, pos, mid, FieldOf(v));
    SkipsBody(v, data, mid, end);
  }

  lemma {:induction false} SkipsBody(v: Value, data: bytes, pos: nat, end: nat)
    requires Encodable(v) && Spans(data, pos, end, Body(v))
    ensures SkipBody(FieldOf(v), data, pos) == Ok((), end)
    decreases v, 0
  {
    match v
    case VStruct(vs) =>
      var n := |vs|;
      var mid := Split(data, pos, end, [n], EncodeAll(vs));
      ByteAt(data, pos, mid, n);
      SkipsFields(vs, data, mid, end);
    case VSlice(t, vs) => SkipsSlice(t, vs, data, pos, end);
    case VMap(k, t, es) => SkipsMap(k, t, es, data, pos, end);
    case _ => SkipsScalar(v, data, pos, end);
  }

  lemma {:induction false} SkipsSlice(t: Type, vs: seq<Value>, data: bytes, pos: nat, end: nat)
    requires Encodable(VSlice(t, vs)) && Spans(data, pos, end, Body(VSlice(t, vs)))
    ensures SkipBody(FieldOf(VSlice(t, vs)), data, pos) == Ok((), end)
    decreases vs, 1
  {
    var mid := Split(data, pos, end, EncodeUint(Unsigned64(|vs|)), Bodies(vs));
    CountAt(data, pos, mid, |vs|);
    SkipsItems(vs, t, data, mid, end);
  }

  lemma {:induction false} SkipsMap(k: Type, t: Type, es: seq<Entry>, data: bytes, pos: nat, end: nat)
    requires Encodable(VMap(k, t, es)) && Spans(data, pos, end, Body(VMap(k, t, es)))
    ensures SkipBody(FieldOf(VMap(k, t, es)), data, pos) == Ok((), end)
    decreases es, 1
  {
    var mid := Split(data, pos, end, EncodeUint(Unsigned64(|es|)), EntryBodies(es));
    CountAt(data, pos, mid, |es|);
    SkipsEntries(es, k, t, data, mid, end);
  }

  lemma SkipsScalar(v: Value, data: bytes, pos: nat, end: nat)
    requires !v.VStruct? && !v.VSlice? && !v.VMap?
    requires Encodable(v) && Spans(data, pos, end, Body(v))
    ensures SkipBody(FieldOf(v), data, pos) == Ok((), end)
  {
    match v
    case VBool(_) =>
    case VInt(_, i) => UintAt(data, pos, end, Unsigned64(i));
    case VUint(_, u) => UintAt(data, pos, end, u % TWO_64);
    case VFloat(bits) => UintAt(data, pos, end, bits);
    case VString(s) => StringAt(data, pos, end, s);
    case VBytes(s) => StringAt(data, pos, end, s);
  }

  lemma {:induction false} SkipsFields(vs: seq<Value>, data: bytes, pos: nat, end: nat)
    requires AllEncodable(vs) && Spans(data, pos, end, EncodeAll(vs))
    ensures SkipFields(|vs|, data, pos) == Ok((), end)
    decreases vs, 0
  {
    if vs != [] {
      var v, rest := vs[0], vs[1..];
      var mid := Split(data, pos, end, Encode(v), EncodeAll(rest));
      SkipsValue(v, data, pos, mid);
      SkipsFields(rest, data, mid, end);
    }
  }

  lemma {:induction false} SkipsItems(vs: seq<Value>, t: Type, data: bytes, pos: nat, end: nat)
    requires ElementTag(t).Some? && AllEncodable(vs) && AllHaveType(vs, t) && Spans(data, pos, end, Bodies(vs))
    ensures SkipItems(Field(TagOf(t), []), |vs|, data, pos) == Ok((), end)
    decreases vs, 0
  {
    if vs != [] {
      var v, rest := vs[0], vs[1..];
      var mid := Split(data, pos, end, ElementBody(v), Bodies(rest));
      ElementField(v, t);
      SkipsBody(v, data, pos, mid);
      SkipsItems(rest, t, data, mid, end);
    }
  }

  lemma {:induction false} SkipsEntries(es: seq<Entry>, k: Type, t: Type, data: bytes, pos: nat, end: nat)
    requires ElementTag(k).Some? && ElementTag(t).Some?
    requires EntriesEncodable(es) && EntriesHaveType(es, k, t) && Spans(data, pos, end, EntryBodies(es))
    ensures SkipEntries(Field(TagOf(k), []), Field(TagOf(t), []), |es|, data, pos) == Ok((), end)
    decreases es, 0
  {
    if es != [] {
      var e, rest := es[0], es[1..];
      var next := Split(data, pos, end, EntryBody(e), EntryBodies(rest));
      var mid := SkipsEntry(e, k, t, data, pos, next);
      SkipsEntries(rest, k, t, data, next, end);
    }
  }

  lemma {:induction false} SkipsEntry(e: Entry, k: Type, t: Type, data: bytes, pos: nat, end: nat) returns (mid: nat)
    requires ElementTag(k).Some? && ElementTag(t).Some?
    requires EntryEncodable(e) && EntryHasType(e, k, t) && Spans(data, pos, end, EntryBody(e))
    ensures SkipBody(Field(TagOf(k), []), data, pos) == Ok((), mid)
    ensures SkipBody(Field(TagOf(t), []), data, mid) == Ok((), end)
    decreases e, 1
  {
    mid := Split(data, pos, end, ElementBody(e.key), ElementBody(e.value));
    ElementField(e.key, k);
    ElementField(e.value, t);
    SkipsBody(e.key, data, pos, mid);
    SkipsBody(e.value, data, mid, end);
  }

  lemma {:induction false} PortableEncodable(v: Value, t: Type)
    requires HasType(v, t) && Portable(v)
    ensures Encodable(v)
    decreases v, 1
  {
    match v
    case VStruct(vs) => AllPortableEncodable(vs, t.fields);
    case VSlice(e, vs) => ItemsPortableEncodable(vs, e);
    case VMap(k, e, es) => EntriesPortableEncodable(es, k, e);
    case _ =>
  }

  lemma {:induction false} AllPortableEncodable(vs: seq<Value>, ts: seq<Type>)
    requires HaveTypes(vs, ts) && AllPortable(vs)
    ensures AllEncodable(vs)
    decreases vs, 0
  {
    if vs != [] {
      PortableEncodable(vs[0], ts[0]);
      AllPortableEncodable(vs[1..], ts[1..]);
    }
  }

  lemma {:induction false} ItemsPortableEncodable(vs: seq<Value>, t: Type)
    requires AllHaveType(vs, t) && AllPortable(vs)
    ensures AllEncodable(vs)
    decreases vs, 0
  {
    if vs != [] {
      PortableEncodable(vs[0], t);
      ItemsPortableEncodable(vs[1..], t);
    }
  }

  lemma {:induction false} EntriesPortableEncodable(es: seq<Entry>, k: Type, t: Type)
    requires EntriesHaveType(es, k, t) && EntriesPortable(es)
    ensures EntriesEncodable(es)
    decreases es, 0
  {
    if es != [] {
      EntryPortableEncodable(es[0], k, t);
      EntriesPortableEncodable(es[1..], k, t);
    }
  }

  lemma {:induction false} EntryPortableEncodable(e: Entry, k: Type, t: Type)
    requires EntryHasType(e, k, t) && EntryPortable(e)
    ensures EntryEncodable(e)
    decreases e, 1
  {
    PortableEncodable(e.key, k);
    PortableEncodable(e.value, t);
  }

  /** Skipping and decoding stop at the same position for every value the decoder can read. */
  lemma SkipMatchesDecode(v: Value, t: Type, before: bytes, rest: bytes)
    requires HasType(v, t) && Portable(v)
    ensures var data := before + Encode(v) + rest;
            SkipValue(data, |before|).Ok? && DecodeValue(t, data, |before|).Ok?
            && SkipValue(data, |before|).pos == DecodeValue(t, data, |before|).pos
  {
    Embedded(before, Encode(v), rest);
    PortableEncodable(v, t);
    SkipsValue(v, before + Encode(v) + rest, |before|, |before + Encode(v)|);
    ValueSurvives(v, t, before, rest);
  }

  /**
   * What no encoder of this framework writes: a date is skipped as a number, a list or map with a negative
   * count as nothing, and a descriptor of no known kind has no value behind it.
   */
  lemma SkipsOther(f: Field, data: bytes, pos: nat)
    requires WellFormed(f)
    ensures f.base == 9 ==> SkipBody(f, data, pos) == Ok((), DecodeUint(data, pos).1)
    ensures f.base == 0 || f.base > 9 ==> SkipBody(f, data, pos) == Ok((), pos)
    ensures f.base == 1 ==> SkipBody(f, data, pos) == Ok((), pos + 1)
    ensures (f.base == 4 || f.base == 5) && DecodeUint(data, pos).0 % 0x1_0000_0000 >= 0x8000_0000 ==>
              SkipBody(f, data, pos) == Ok((), DecodeUint(data, pos).1)
  {
  }
}
