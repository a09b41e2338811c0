/**
 * The type-tagged value format: which values the encoder accepts, the bytes it writes for them, and
 * what the decoder makes of bytes for a target type. Go values reached by reflection become a
 * datatype of values and a datatype of target types; pointers are identified with their targets.
 */
module Values {
  import opened Words
  import opened Varint
  import opened Wire
  import opened Strconv

  datatype Width = W16 | W32 | W64

  function Modulus(w: Width): int {
    match w case W16 => 0x1_0000 case W32 => TWO_32 case W64 => TWO_64
  }

  datatype Type =
    | TBool | TInt(w: Width) | TUint(w: Width) | TFloat | TString | TBytes
    | TStruct(fields: seq<Type>) | TSlice(elem: Type) | TMap(key: Type, elem: Type)

  /** A map is listed in the order its iteration yields it; two listings of one map are different values here. */
  datatype Value =
    | VBool(b: bool) | VInt(w: Width, i: int) | VUint(w: Width, u: nat) | VFloat(bits: uint64)
    | VString(s: bytes) | VBytes(s: bytes) | VStruct(fields: seq<Value>)
    | VSlice(elem: Type, items: seq<Value>) | VMap(key: Type, elem: Type, entries: seq<Entry>)
  datatype Entry = Entry(key: Value, value: Value)

  function Zero(t: Type): Value {
    match t
    case TBool => VBool(false)
    case TInt(w) => VInt(w, 0)
    case TUint(w) => VUint(w, 0)
    case TFloat => VFloat(0)
    case TString => VString([])
    case TBytes => VBytes([])
    case TStruct(ts) => VStruct(Zeros(ts))
    case TSlice(e) => VSlice(e, [])
    case TMap(k, e) => VMap(k, e, [])
  }

  function Zeros(ts: seq<Type>): (vs: seq<Value>)
    ensures |vs| == |ts|
  {
    if ts == [] then [] else [Zero(ts[0])] + Zeros(ts[1..])
  }

  // ----- the encoder

  /** The tag of a slice element, map key or map value type; for the other types the encoder panics. */
  function ElementTag(t: Type): Option<byte> {
    match t
    case TString => Some(FT_STRING)
    case TInt(_) => Some(FT_NUMBER)
    case TUint(_) => Some(FT_NUMBER)
    case TFloat => Some(FT_FLOAT)
    case TStruct(_) => Some(FT_STRUCT)
    case _ => None
  }

  function TagOf(t: Type): byte {
    ElementTag(t).GetOr(FT_PACK)
  }

  /** The encoder panics on a value that contains, at any depth, a slice or map with an untaggable element. */
  predicate Panics(v: Value) {
    match v
    case VStruct(vs) => AnyPanics(vs)
    case VSlice(t, vs) => ElementTag(t).None? || AnyElementPanics(vs)
    case VMap(k, t, es) => ElementTag(k).None? || ElementTag(t).None? || AnyEntryPanics(es)
    case _ => false
  }

  predicate AnyPanics(vs: seq<Value>) {
    vs != [] && (Panics(vs[0]) || AnyPanics(vs[1..]))
  }

  predicate ElementPanics(v: Value) {
    v.VStruct? && AnyPanics(v.fields)
  }

  predicate AnyElementPanics(vs: seq<Value>) {
    vs != [] && (ElementPanics(vs[0]) || AnyElementPanics(vs[1..]))
  }

  predicate EntryPanics(e: Entry) {
    ElementPanics(e.key) || ElementPanics(e.value)
  }

  predicate AnyEntryPanics(es: seq<Entry>) {
    es != [] && (EntryPanics(es[0]) || AnyEntryPanics(es[1..]))
  }

  /** The type descriptor written before a value. */
  function Descriptor(v: Value): bytes {
    match v
    case VBool(_) => [FT_CHAR]
    case VInt(_, _) => [FT_NUMBER]
    case VUint(_, _) => [FT_NUMBER]
    case VFloat(_) => [FT_FLOAT]
    case VString(_) => [FT_STRING]
    case VBytes(_) => [FT_BYTES]
    case VStruct(_) => [FT_STRUCT]
    case VSlice(t, _) => [FT_ARRAY, TagOf(t)]
    case VMap(k, t, _) => [FT_MAP, TagOf(k), TagOf(t)]
  }

  /** What follows the descriptor. */
  function Body(v: Value): bytes
    decreases v, 0
  {
    match v
    case VBool(b) => [if b then 1 else 0]
    case VInt(_, i) => EncodeUint(Unsigned64(i))
    case VUint(_, u) => EncodeUint(u % TWO_64)
    case VFloat(bits) => EncodeUint(bits)
    case VString(s) => EncodeString(s)
    case VBytes(s) => EncodeString(s)
    case VStruct(vs) => [|vs| % 256] + EncodeAll(vs)
    case VSlice(_, vs) => EncodeUint(Unsigned64(|vs|)) + Bodies(vs)
    case VMap(_, _, es) => EncodeUint(Unsigned64(|es|)) + EntryBodies(es)
  }

  function Encode(v: Value): bytes
    decreases v, 1
  {
    Descriptor(v) + Body(v)
  }

  function EncodeAll(vs: seq<Value>): bytes
    decreases vs, 0
  {
    if vs == [] then [] else Encode(vs[0]) + EncodeAll(vs[1..])
  }

  /** An element of a slice or map, which is written without a descriptor; only these shapes are written at all. */
  function ElementBody(v: Value): bytes
    decreases v, 1
  {
    if v.VBytes? || v.VSlice? || v.VMap? then [] else Body(v)
  }

  function Bodies(vs: seq<Value>): bytes
    decreases vs, 0
  {
    if vs == [] then [] else ElementBody(vs[0]) + Bodies(vs[1..])
  }

  function EntryBody(e: Entry): bytes
    decreases e, 0
  {
    ElementBody(e.key) + ElementBody(e.value)
  }

  function EntryBodies(es: seq<Entry>): bytes
    decreases es, 0
  {
    if es == [] then [] else EntryBody(es[0]) + EntryBodies(es[1..])
  }

  // ----- the decoder

  /** What a target of type `t` receives from the single byte of a character field. */
  function FromChar(c: byte, t: Type): Option<Value> {
    match t
    case TBool => Some(VBool(c != 0))
    case TInt(w) => Some(VInt(w, c))
    case TUint(w) => Some(VUint(w, c))
    case _ => None
  }

  /** What a target receives from a number: truncation to its width, or decimal text. */
  function FromNumber(u: uint64, t: Type): Option<Value> {
    match t
    case TBool => Some(VBool(u != 0))
    case TInt(w) => Some(VInt(w, Signed(u, Modulus(w))))
    case TUint(w) => Some(VUint(w, u % Modulus(w)))
    case TString => Some(VString(Itoa(Signed(u, TWO_64))))
    case _ => None
  }

  /** What a target receives from text: 32- and 64-bit signed targets parse it as a decimal number. */
  function FromText(s: bytes, t: Type): Option<Value> {
    match t
    case TString => Some(VString(s))
    case TInt(W32) => Some(VInt(W32, Signed(Unsigned64(ParseInt(s)), TWO_32)))
    case TInt(W64) => Some(VInt(W64, ParseInt(s)))
    case _ => None
  }

  function Place<T>(v: Option<T>, pos: nat): Parsed<T> {
    match v case Some(x) => Ok(x, pos) case None => Panic
  }

  /** A count is a number truncated to a signed 32-bit one. */
  function DecodeCount(data: bytes, pos: nat): (r: (int, nat))
    ensures r.1 >= pos
  {
    var (u, p) := DecodeUint(data, pos);
    (Signed(u, TWO_32), p)
  }

  function DecodeValue(t: Type, data: bytes, pos: nat): Parsed<Value>
    decreases t, 3
  {
    match UnpackField(data, pos)
    case Ok(f, p) => DecodeByField(f, t, data, p)
    case Panic => Panic
  }

  /** Descriptors the decoder has no case for, floats among them, read nothing and leave the zero value. */
  function DecodeByField(f: Field, t: Type, data: bytes, pos: nat): Parsed<Value>
    requires WellFormed(f)
    decreases t, 2
  {
    if f.base == FT_ARRAY then DecodeArray(f.sub[0], t, data, pos)
    else if f.base == FT_MAP then DecodeMap(f.sub[0], f.sub[1], t, data, pos)
    else if f.base == FT_STRUCT then DecodeStructBody(t, data, pos)
    else DecodeScalar(f.base, t, data, pos)
  }

  function DecodeScalar(base: byte, t: Type, data: bytes, pos: nat): Parsed<Value> {
    if base == FT_CHAR then
      match DecodeByte(data, pos)
      case Ok(c, p) => Place(FromChar(c, t), p)
      case Panic => Panic
    else if base == FT_NUMBER then
      var (u, p) := DecodeUint(data, pos);
      Place(FromNumber(u, t), p)
    else if base == FT_STRING || base == FT_BYTES then
      match DecodeString(data, pos)
      case Ok(s, p) =>
        if base == FT_STRING then Place(FromText(s, t), p)
        else if t.TBytes? then Ok(VBytes(s), p) else Panic
      case Panic => Panic
    else Ok(Zero(t), pos)
  }

  function DecodeArray(f: Field, t: Type, data: bytes, pos: nat): Parsed<Value>
    requires WellFormed(f)
    decreases t, 1
  {
    var (n, p) := DecodeCount(data, pos);
    if n < 0 then Panic
    else if t.TSlice? then
      match DecodeItems(f, t.elem, n, data, p)
      case Ok(vs, q) => Ok(VSlice(t.elem, vs), q)
      case Panic => Panic
    else if t.TBytes? then
      match DecodeOctets(f.base, n, data, p)
      case Ok(s, q) => Ok(VBytes(s), q)
      case Panic => Panic
    else Panic
  }

  /** A negative count reads as an empty map. */
  function DecodeMap(fk: Field, fv: Field, t: Type, data: bytes, pos: nat): Parsed<Value>
    requires WellFormed(fk) && WellFormed(fv)
    decreases t, 1
  {
    if !t.TMap? then Panic else
      var (n, p) := DecodeCount(data, pos);
      match DecodeEntries(fk, fv, t.key, t.elem, n, [], data, p)
      case Ok(es, q) => Ok(VMap(t.key, t.elem, es), q)
      case Panic => Panic
  }

  function DecodeStructBody(t: Type, data: bytes, pos: nat): Parsed<Value>
    decreases t, 1
  {
    match DecodeByte(data, pos)
    case Ok(n, p) =>
      if !t.TStruct? then Panic else
        (match DecodeFields(t.fields, n, data, p)
         case Ok(vs, q) => Ok(VStruct(vs), q)
         case Panic => Panic)
    case Panic => Panic
  }

  function DecodeItems(f: Field, t: Type, n: nat, data: bytes, pos: nat): Parsed<seq<Value>>
    requires WellFormed(f)
    decreases t, 3, n
  {
    if n == 0 then Ok([], pos) else
      match DecodeByField(f, t, data, pos)
      case Ok(v, p) =>
        (match DecodeItems(f, t, n - 1, data, p)
         case Ok(vs, q) => Ok([v] + vs, q)
         case Panic => Panic)
      case Panic => Panic
  }

  /** Array elements decoded into single bytes. */
  function DecodeOctets(base: byte, n: nat, data: bytes, pos: nat): Parsed<bytes>
  {
    if n == 0 then Ok([], pos)
    else if base == FT_STRING || base == FT_BYTES || base == FT_ARRAY || base == FT_MAP || base == FT_STRUCT then Panic
    else
      var first := if base == FT_CHAR then DecodeByte(data, pos)
                   else if base == FT_NUMBER then (var (u, p) := DecodeUint(data, pos); Ok(u % 256, p))
                   else Ok(0, pos);
      match first
      case Ok(c, p) =>
        (match DecodeOctets(base, n - 1, data, p)
         case Ok(s, q) => Ok([c] + s, q)
         case Panic => Panic)
      case Panic => Panic
  }

  /** Assignment to a map: an existing key keeps its place, a new one is added. */
  function PutEntry(es: seq<Entry>, e: Entry): seq<Entry> {
    if es == [] then [e]
    else if es[0].key == e.key then [e] + es[1..]
    else [es[0]] + PutEntry(es[1..], e)
  }

  function DecodeEntries(fk: Field, fv: Field, kt: Type, vt: Type, n: int, done: seq<Entry>, data: bytes, pos: nat)
    : Parsed<seq<Entry>>
    requires WellFormed(fk) && WellFormed(fv)
    decreases TMap(kt, vt), 0, if n < 0 then 0 else n
  {
    if n <= 0 then Ok(done, pos) else
      match DecodeByField(fk, kt, data, pos)
      case Ok(k, p) =>
        (match DecodeByField(fv, vt, data, p)
         case Ok(v, q) => DecodeEntries(fk, fv, kt, vt, n - 1, PutEntry(done, Entry(k, v)), data, q)
         case Panic => Panic)
      case Panic => Panic
  }

  /** `n` fields on the wire into a struct: missing ones stay zero; of extra ones only the descriptor is read. */
  function DecodeFields(ts: seq<Type>, n: nat, data: bytes, pos: nat): (r: Parsed<seq<Value>>)
    ensures r.Ok? ==> |r.value| == |ts|
    decreases ts, 3, n
  {
    if n == 0 then Ok(Zeros(ts), pos)
    else if ts == [] then
      match UnpackField(data, pos)
      case Ok(_, p) => DecodeFields(ts, n - 1, data, p)
      case Panic => Panic
    else
      match DecodeValue(ts[0], data, pos)
      case Ok(v, p) =>
        (match DecodeFields(ts[1..], n - 1, data, p)
         case Ok(vs, q) => Ok([v] + vs, q)
         case Panic => Panic)
      case Panic => Panic
  }
}
