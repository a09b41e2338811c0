/** Decoding inverts encoding, for every value the format can carry and any bytes around it. */
module ValueRoundTrip {
  import opened Words
  import opened Varint
  import opened Wire
  import opened Values

  /** The value inhabits the type: same shape everywhere, numbers within their width. */
  predicate HasType(v: Value, t: Type) {
    match (v, t)
    case (VBool(_), TBool) => true
    case (VInt(w, i), TInt(w')) => w == w' && -(Modulus(w) / 2) <= i < Modulus(w) / 2
    case (VUint(w, u), TUint(w')) => w == w' && u < Modulus(w)
    case (VFloat(_), TFloat) => true
    case (VString(_), TString) => true
    case (VBytes(_), TBytes) => true
    case (VStruct(vs), TStruct(ts)) => HaveTypes(vs, ts)
    case (VSlice(e, vs), TSlice(e')) => e == e' && AllHaveType(vs, e)
    case (VMap(k, e, es), TMap(k', e')) => k == k' && e == e' && EntriesHaveType(es, k, e)
    case _ => false
  }

  predicate HaveTypes(vs: seq<Value>, ts: seq<Type>) {
    |vs| == |ts| && (vs != [] ==> HasType(vs[0], ts[0]) && HaveTypes(vs[1..], ts[1..]))
  }

  predicate AllHaveType(vs: seq<Value>, t: Type) {
    vs != [] ==> HasType(vs[0], t) && AllHaveType(vs[1..], t)
  }

  predicate EntryHasType(e: Entry, k: Type, t: Type) {
    HasType(e.key, k) && HasType(e.value, t)
  }

  predicate EntriesHaveType(es: seq<Entry>, k: Type, t: Type) {
    es != [] ==> EntryHasType(es[0], k, t) && EntriesHaveType(es[1..], k, t)
  }

  /**
   * What the format carries: no floats, which the decoder cannot read; structs of at most 255 fields;
   * slices and maps with tagged elements and fewer than 2^31 of them; maps listed without repeating a key.
   */
  predicate Portable(v: Value) {
    match v
    case VFloat(_) => false
    case VString(s) => |s| < TWO_63
    case VBytes(s) => |s| < TWO_63
    case VStruct(vs) => |vs| <= 255 && AllPortable(vs)
    case VSlice(t, vs) => ElementTag(t).Some? && |vs| < 0x8000_0000 && AllPortable(vs)
    case VMap(k, t, es) =>
      ElementTag(k).Some? && ElementTag(t).Some? && |es| < 0x8000_0000 && EntriesPortable(es) && DistinctKeys(es)
    case _ => true
  }

  predicate AllPortable(vs: seq<Value>) {
    vs != [] ==> Portable(vs[0]) && AllPortable(vs[1..])
  }

  predicate EntryPortable(e: Entry) {
    Portable(e.key) && Portable(e.value)
  }

  predicate EntriesPortable(es: seq<Entry>) {
    es != [] ==> EntryPortable(es[0]) && EntriesPortable(es[1..])
  }

  predicate HasKey(es: seq<Entry>, k: Value) {
    exists i :: 0 <= i < |es| && es[i].key == k
  }

  predicate DistinctKeys(es: seq<Entry>) {
    forall i, j :: 0 <= i < j < |es| ==> es[i].key != es[j].key
  }

  /** The descriptor of a value as the tree the decoder builds. */
  function FieldOf(v: Value): (f: Field)
    ensures WellFormed(f)
  {
    match v
    case VSlice(t, _) => Field(FT_ARRAY, [Field(TagOf(t), [])])
    case VMap(k, t, _) => Field(FT_MAP, [Field(TagOf(k), []), Field(TagOf(t), [])])
    case _ => Field(Descriptor(v)[0], [])
  }

  lemma FieldOfFlattens(v: Value)
    ensures Flatten(FieldOf(v)) == Descriptor(v)
  {
    match v
    case VSlice(t, _) => FlattenOne(Field(TagOf(t), []));
    case VMap(k, t, _) => FlattenPair(Field(TagOf(k), []), Field(TagOf(t), []));
    case _ =>
  }

  /** Elements carry no descriptor: the one announced for their type fits all of them, and all are written. */
  lemma ElementField(v: Value, t: Type)
    requires HasType(v, t) && ElementTag(t).Some?
    ensures FieldOf(v) == Field(TagOf(t), []) && ElementBody(v) == Body(v)
  {
  }

  lemma CountAt(data: bytes, pos: nat, end: nat, n: nat)
    requires n < 0x8000_0000 && Spans(data, pos, end, EncodeUint(Unsigned64(n)))
    ensures DecodeCount(data, pos) == (n, end)
  {
    UintAt(data, pos, end, n);
  }

  /**
   * Round trip with any suffix: where the encoding of `v` stands in the data, decoding into a fresh
   * target of its type yields `v` and stops exactly at the end of the encoding.
   */
  lemma {:induction false} ValueAt(v: Value, t: Type, data: bytes, pos: nat, end: nat)
    requires HasType(v, t) && Portable(v) && Spans(data, pos, end, Encode(v))
    ensures DecodeValue(t, data, pos) == Ok(v, end)
    decreases v, 1
  {
    var mid := Split(data, pos, end, Descriptor(v), Body(v));
    FieldOfFlattens(v);
    FieldAt(data, pos, mid, FieldOf(v));
    BodyAt(v, t, data, mid, end);
  }

  lemma {:induction false} BodyAt(v: Value, t: Type, data: bytes, pos: nat, end: nat)
    requires HasType(v, t) && Portable(v) && Spans(data, pos, end, Body(v))
    ensures DecodeByField(FieldOf(v), t, data, pos) == Ok(v, end)
    decreases v, 0
  {
    match v
    case VStruct(vs) => StructAt(vs, t.fields, [], data, pos, end);
    case VSlice(e, vs) => SliceAt(vs, e, data, pos, end);
    case VMap(k, e, es) => MapAt(es, k, e, data, pos, end);
    case _ => ScalarAt(v, t, data, pos, end);
  }

  lemma ScalarAt(v: Value, t: Type, data: bytes, pos: nat, end: nat)
    requires !v.VStruct? && !v.VSlice? && !v.VMap?
    requires HasType(v, t) && Portable(v) && Spans(data, pos, end, Body(v))
    ensures DecodeScalar(FieldOf(v).base, t, data, pos) == Ok(v, end)
  {
    match v
    case VBool(b) => ByteAt(data, pos, end, if b then 1 else 0);
    case VInt(w, i) => IntAt(v, w, i, data, pos, end);
    case VUint(w, u) => UnsignedAt(v, w, u, data, pos, end);
    case VString(s) => StringAt(data, pos, end, s);
    case VBytes(s) => StringAt(data, pos, end, s);
  }

  lemma IntAt(v: Value, w: Width, i: int, data: bytes, pos: nat, end: nat)
    requires v == VInt(w, i) && HasType(v, TInt(w)) && Spans(data, pos, end, EncodeUint(Unsigned64(i)))
    ensures DecodeScalar(FT_NUMBER, TInt(w), data, pos) == Ok(v, end)
  {
    UintAt(data, pos, end, Unsigned64(i));
    SignedRoundTrip(i);
  }

  lemma UnsignedAt(v: Value, w: Width, u: nat, data: bytes, pos: nat, end: nat)
    requires v == VUint(w, u) && HasType(v, TUint(w)) && Spans(data, pos, end, EncodeUint(u))
    ensures DecodeScalar(FT_NUMBER, TUint(w), data, pos) == Ok(v, end)
  {
    UintAt(data, pos, end, u);
    NumberTaken(v, w, u);
  }

  lemma NumberTaken(v: Value, w: Width, u: nat)
    requires v == VUint(w, u) && HasType(v, TUint(w))
    ensures u < TWO_64 && FromNumber(u, TUint(w)) == Some(v)
  {
  }

  /** A struct decodes into a target with the same fields and possibly more, which stay zero. */
  lemma {:induction false} StructAt(vs: seq<Value>, ts: seq<Type>, more: seq<Type>, data: bytes, pos: nat, end: nat)
    requires |vs| <= 255 && HaveTypes(vs, ts) && AllPortable(vs) && Spans(data, pos, end, Body(VStruct(vs)))
    ensures DecodeStructBody(TStruct(ts + more), data, pos) == Ok(VStruct(vs + Zeros(more)), end)
    ensures more == [] ==> DecodeStructBody(TStruct(ts), data, pos) == Ok(VStruct(vs), end)
    decreases vs, 1
  {
    var n := |vs|;
    var mid := Split(data, pos, end, [n], EncodeAll(vs));
    ByteAt(data, pos, mid, n);
    FieldsAt(vs, ts, more, data, mid, end);
    CountedFields(ts + more, n, data, pos, mid);
    if more == [] {
      assert ts + more == ts && vs + Zeros(more) == vs;
    }
  }

  lemma CountedFields(ts: seq<Type>, n: nat, data: bytes, pos: nat, mid: nat)
    requires DecodeByte(data, pos) == Ok(n, mid) && DecodeFields(ts, n, data, mid).Ok?
    ensures var r := DecodeFields(ts, n, data, mid);
            DecodeStructBody(TStruct(ts), data, pos) == Ok(VStruct(r.value), r.pos)
  {
  }

  lemma {:induction false} SliceAt(vs: seq<Value>, t: Type, data: bytes, pos: nat, end: nat)
    requires |vs| < 0x8000_0000 && AllHaveType(vs, t) && ElementTag(t).Some? && AllPortable(vs)
    requires Spans(data, pos, end, Body(VSlice(t, vs)))
    ensures DecodeArray(Field(TagOf(t), []), TSlice(t), data, pos) == Ok(VSlice(t, vs), end)
    decreases vs, 1
  {
    var mid := Split(data, pos, end, EncodeUint(Unsigned64(|vs|)), Bodies(vs));
    CountAt(data, pos, mid, |vs|);
    ItemsAt(vs, t, data, mid, end);
  }

  lemma {:induction false} MapAt(es: seq<Entry>, k: Type, t: Type, data: bytes, pos: nat, end: nat)
    requires |es| < 0x8000_0000 && EntriesHaveType(es, k, t) && EntriesPortable(es) && DistinctKeys(es)
    requires ElementTag(k).Some? && ElementTag(t).Some?
    requires Spans(data, pos, end, Body(VMap(k, t, es)))
    ensures DecodeMap(Field(TagOf(k), []), Field(TagOf(t), []), TMap(k, t), data, pos) == Ok(VMap(k, t, es), end)
    decreases es, 1
  {
    var mid := Split(data, pos, end, EncodeUint(Unsigned64(|es|)), EntryBodies(es));
    CountAt(data, pos, mid, |es|);
    assert [] + es == es;
    EntriesAt(es, k, t, [], data, mid, end);
    CountedEntries(es, k, t, data, pos, mid, end);
  }

  lemma CountedEntries(es: seq<Entry>, k: Type, t: Type, data: bytes, pos: nat, mid: nat, end: nat)
    requires DecodeCount(data, pos) == (|es|, mid)
    requires DecodeEntries(Field(TagOf(k), []), Field(TagOf(t), []), k, t, |es|, [], data, mid) == Ok(es, end)
    ensures DecodeMap(Field(TagOf(k), []), Field(TagOf(t), []), TMap(k, t), data, pos) == Ok(VMap(k, t, es), end)
  {
  }

  /** Fields decode one by one; a longer target keeps its remaining fields at zero. */
  lemma {:induction false} FieldsAt(vs: seq<Value>, ts: seq<Type>, more: seq<Type>, data: bytes, pos: nat, end: nat)
    requires HaveTypes(vs, ts) && AllPortable(vs) && Spans(data, pos, end, EncodeAll(vs))
    ensures DecodeFields(ts + more, |vs|, data, pos) == Ok(vs + Zeros(more), end)
    decreases vs, 0
  {
    if vs == [] {
      assert ts + more == more && vs + Zeros(more) == Zeros(more);
    } else {
      var v, rest, t, types := vs[0], vs[1..], ts[0], ts[1..];
      var mid := Split(data, pos, end, Encode(v), EncodeAll(rest));
      ValueAt(v, t, data, pos, mid);
      FieldsAt(rest, types, more, data, mid, end);
      FirstField(ts, t, types, more);
      NextField(ts + more, t, types + more, |rest|, data, pos, v, mid, rest + Zeros(more), end);
      assert vs == [v] + rest;
      Reassociated([v], rest, Zeros(more));
    }
  }

  lemma FirstField(ts: seq<Type>, t: Type, rest: seq<Type>, more: seq<Type>)
    requires ts == [t] + rest
    ensures ts + more != [] && (ts + more)[0] == t && (ts + more)[1..] == rest + more
  {
  }

  lemma Reassociated(a: seq<Value>, b: seq<Value>, c: seq<Value>)
    ensures a + b + c == a + (b + c)
  {
  }

  lemma NextField(ts: seq<Type>, t: Type, types: seq<Type>, n: nat, data: bytes, pos: nat, v: Value, mid: nat,
                  rest: seq<Value>, end: nat)
    requires ts != [] && ts[0] == t && ts[1..] == types
    requires DecodeValue(t, data, pos) == Ok(v, mid) && DecodeFields(types, n, data, mid) == Ok(rest, end)
    ensures DecodeFields(ts, n + 1, data, pos) == Ok([v] + rest, end)
  {
  }

  lemma {:induction false} ItemsAt(vs: seq<Value>, t: Type, data: bytes, pos: nat, end: nat)
    requires AllHaveType(vs, t) && ElementTag(t).Some? && AllPortable(vs) && Spans(data, pos, end, Bodies(vs))
    ensures DecodeItems(Field(TagOf(t), []), t, |vs|, data, pos) == Ok(vs, end)
    decreases vs, 0
  {
    if vs != [] {
      var v, rest := vs[0], vs[1..];
      var mid := Split(data, pos, end, ElementBody(v), Bodies(rest));
      ElementField(v, t);
      BodyAt(v, t, data, pos, mid);
      ItemsAt(rest, t, data, mid, end);
      assert vs == [v] + rest;
    }
  }

  lemma {:induction false} PutNew(es: seq<Entry>, e: Entry)
    requires !HasKey(es, e.key)
    ensures PutEntry(es, e) == es + [e]
  {
    if es != [] {
      forall i | 0 <= i < |es[1..]| ensures es[1..][i].key != e.key {
        assert es[1..][i] == es[i + 1];
      }
      PutNew(es[1..], e);
    }
  }

  lemma NewKey(done: seq<Entry>, es: seq<Entry>)
    requires es != [] && DistinctKeys(done + es)
    ensures PutEntry(done, es[0]) == done + [es[0]]
    ensures done + es == (done + [es[0]]) + es[1..]
  {
    assert (done + es)[|done|] == es[0];
    assert forall i :: 0 <= i < |done| ==> (done + es)[i] == done[i];
    PutNew(done, es[0]);
  }

  lemma {:induction false} EntriesAt(es: seq<Entry>, k: Type, t: Type, done: seq<Entry>, data: bytes, pos: nat, end: nat)
    requires EntriesHaveType(es, k, t) && ElementTag(k).Some? && ElementTag(t).Some?
    requires EntriesPortable(es) && DistinctKeys(done + es)
    requires Spans(data, pos, end, EntryBodies(es))
    ensures DecodeEntries(Field(TagOf(k), []), Field(TagOf(t), []), k, t, |es|, done, data, pos) == Ok(done + es, end)
    decreases es, 0
  {
    if es == [] {
      assert done + es == done;
    } else {
      var e, rest := es[0], es[1..];
      var next := Split(data, pos, end, EntryBody(e), EntryBodies(rest));
      var mid := EntryAt(e, k, t, data, pos, next);
      NewKey(done, es);
      EntriesAt(rest, k, t, done + [e], data, next, end);
    }
  }

  lemma {:induction false} EntryAt(e: Entry, k: Type, t: Type, data: bytes, pos: nat, end: nat) returns (mid: nat)
    requires EntryHasType(e, k, t) && ElementTag(k).Some? && ElementTag(t).Some?
    requires EntryPortable(e) && Spans(data, pos, end, EntryBody(e))
    ensures DecodeByField(Field(TagOf(k), []), k, data, pos) == Ok(e.key, mid)
    ensures DecodeByField(Field(TagOf(t), []), t, data, mid) == Ok(e.value, end)
    decreases e, 1
  {
    mid := Split(data, pos, end, ElementBody(e.key), ElementBody(e.value));
    ElementField(e.key, k);
    ElementField(e.value, t);
    BodyAt(e.key, k, data, pos, mid);
    BodyAt(e.value, t, data, mid, end);
  }

  // ----- the statements about whole encodings

  /** Every portable value survives encoding and decoding, whatever stands before and after it. */
  lemma ValueSurvives(v: Value, t: Type, before: bytes, rest: bytes)
    requires HasType(v, t) && Portable(v)
    ensures DecodeValue(t, before + Encode(v) + rest, |before|) == Ok(v, |before + Encode(v)|)
  {
    Embedded(before, Encode(v), rest);
    ValueAt(v, t, before + Encode(v) + rest, |before|, |before + Encode(v)|);
  }

  /** The Go map that a listing of entries denotes. */
  function MapOf(es: seq<Entry>): map<Value, Value> {
    if es == [] then map[] else MapOf(es[..|es| - 1])[es[|es| - 1].key := es[|es| - 1].value]
  }

  function ReadMap(k: Type, t: Type, data: bytes, pos: nat): Parsed<map<Value, Value>> {
    match DecodeValue(TMap(k, t), data, pos)
    case Ok(v, p) => if v.VMap? then Ok(MapOf(v.entries), p) else Panic
    case Panic => Panic
  }

  /** A listing of a map, anywhere in the data, is read back as that map. */
  lemma MapSurvives(k: Type, t: Type, m: map<Value, Value>, es: seq<Entry>, data: bytes, pos: nat, end: nat)
    requires MapOf(es) == m
    requires HasType(VMap(k, t, es), TMap(k, t)) && Portable(VMap(k, t, es))
    requires Spans(data, pos, end, Encode(VMap(k, t, es)))
    ensures ReadMap(k, t, data, pos) == Ok(m, end)
  {
    ValueAt(VMap(k, t, es), TMap(k, t), data, pos, end);
  }

  // ----- floats

  /** Floats are written but never read: any target keeps its zero value, and the cursor stops before the number. */
  lemma FloatLost(bits: uint64, t: Type, data: bytes, pos: nat, end: nat)
    requires Spans(data, pos, end, Encode(VFloat(bits)))
    ensures DecodeValue(t, data, pos) == Ok(Zero(t), pos + 1) && pos + 1 < end
  {
    var v := VFloat(bits);
    var mid := Split(data, pos, end, Descriptor(v), Body(v));
    FieldAt(data, pos, mid, Field(FT_FLOAT, []));
  }

  lemma {:induction false} FloatItems(n: nat, data: bytes, pos: nat)
    ensures DecodeItems(Field(FT_FLOAT, []), TFloat, n, data, pos).Ok?
    ensures DecodeItems(Field(FT_FLOAT, []), TFloat, n, data, pos).pos == pos
  {
    if n > 0 {
      FloatItems(n - 1, data, pos);
    }
  }

  /** A slice of floats survives exactly when it is empty. */
  lemma FloatSliceSurvives(vs: seq<Value>, data: bytes, pos: nat, end: nat)
    requires AllHaveType(vs, TFloat) && |vs| < 0x8000_0000
    requires Spans(data, pos, end, Encode(VSlice(TFloat, vs)))
    ensures DecodeValue(TSlice(TFloat), data, pos) == Ok(VSlice(TFloat, vs), end) <==> vs == []
  {
    var v := VSlice(TFloat, vs);
    if vs == [] {
      ValueAt(v, TSlice(TFloat), data, pos, end);
    } else {
      var n := |vs|;
      var body := Split(data, pos, end, Descriptor(v), Body(v));
      FieldOfFlattens(v);
      FieldAt(data, pos, body, FieldOf(v));
      var mid := Split(data, body, end, EncodeUint(Unsigned64(n)), Bodies(vs));
      CountAt(data, body, mid, n);
      FloatItems(n, data, mid);
      assert vs[0].VFloat? && |ElementBody(vs[0])| > 0;
    }
  }
}
