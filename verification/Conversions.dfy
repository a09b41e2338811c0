/** What the decoder makes of fields whose kind is not the target's own, and where it refuses. */
module Conversions {
  import opened Words
  import opened Varint
  import opened Wire
  import opened Strconv
  import opened Values
  import opened ValueRoundTrip

  // ----- the bytes themselves

  /** Every kind of value has its own tag, and elements of slices and maps have theirs in the descriptor. */
  lemma EncodingLayout(v: Value)
    ensures match v
      case VBool(b) => Encode(v) == [1] + [if b then 1 else 0]
      case VInt(_, i) => Encode(v) == [2] + EncodeUint(Unsigned64(i))
      case VUint(_, u) => Encode(v) == [2] + EncodeUint(u % 0x1_0000_0000_0000_0000)
      case VString(s) => Encode(v) == [3] + (EncodeUint(Unsigned64(|s|)) + s)
      case VFloat(bits) => Encode(v) == [7] + EncodeUint(bits)
      case VBytes(s) => Encode(v) == [8] + (EncodeUint(Unsigned64(|s|)) + s)
      case VStruct(vs) => Encode(v) == [6] + ([|vs| % 256] + EncodeAll(vs))
      case VSlice(t, vs) => Encode(v) == [4, TagOf(t)] + (EncodeUint(Unsigned64(|vs|)) + Bodies(vs))
      case VMap(k, t, es) => Encode(v) == [5, TagOf(k), TagOf(t)] + (EncodeUint(Unsigned64(|es|)) + EntryBodies(es))
  {
  }

  /** Fields follow one another, elements too but without their tags, and a map entry is its key and then its value. */
  lemma SequenceLayout(v: Value, vs: seq<Value>, e: Entry, es: seq<Entry>)
    ensures EncodeAll([]) == [] && EncodeAll([v] + vs) == Encode(v) + EncodeAll(vs)
    ensures Bodies([]) == [] && Bodies([v] + vs) == ElementBody(v) + Bodies(vs)
    ensures EntryBodies([]) == [] && EntryBodies([e] + es) == (ElementBody(e.key) + ElementBody(e.value)) + EntryBodies(es)
    ensures if v.VBytes? || v.VSlice? || v.VMap? then ElementBody(v) == [] else Encode(v)[1..] == ElementBody(v)
  {
    assert ([v] + vs)[1..] == vs && ([e] + es)[1..] == es;
  }

  /** The tags elements can have, and the types that have none. */
  lemma ElementTags(t: Type)
    ensures ElementTag(t) == match t
      case TInt(_) => Some(2)
      case TUint(_) => Some(2)
      case TString => Some(3)
      case TStruct(_) => Some(6)
      case TFloat => Some(7)
      case TBool => None
      case TBytes => None
      case TSlice(_) => None
      case TMap(_, _) => None
  {
  }

  // ----- where the encoder panics

  lemma {:induction false} AnyPanicsIs(vs: seq<Value>)
    ensures AnyPanics(vs) <==> exists i :: 0 <= i < |vs| && Panics(vs[i])
  {
    if vs != [] {
      AnyPanicsIs(vs[1..]);
      if i :| 0 <= i < |vs| && Panics(vs[i]) {
        assert i > 0 ==> vs[1..][i - 1] == vs[i];
      }
      if i :| 0 <= i < |vs[1..]| && Panics(vs[1..][i]) {
        assert vs[i + 1] == vs[1..][i];
      }
    }
  }

  lemma {:induction false} AnyElementPanicsIs(vs: seq<Value>)
    ensures AnyElementPanics(vs) <==> exists i :: 0 <= i < |vs| && vs[i].VStruct? && AnyPanics(vs[i].fields)
  {
    if vs != [] {
      AnyElementPanicsIs(vs[1..]);
      if i :| 0 <= i < |vs| && vs[i].VStruct? && AnyPanics(vs[i].fields) {
        assert i > 0 ==> vs[1..][i - 1] == vs[i];
      }
      if i :| 0 <= i < |vs[1..]| && vs[1..][i].VStruct? && AnyPanics(vs[1..][i].fields) {
        assert vs[i + 1] == vs[1..][i];
      }
    }
  }

  /** The encoder panics on slices of booleans, byte strings, slices and maps, even empty ones, and on what contains such a slice. */
  lemma SlicePanics(t: Type, vs: seq<Value>)
    ensures Panics(VSlice(t, vs)) <==>
      || t.TBool? || t.TBytes? || t.TSlice? || t.TMap?
      || exists i :: 0 <= i < |vs| && vs[i].VStruct? && AnyPanics(vs[i].fields)
  {
    ElementTags(t);
    AnyElementPanicsIs(vs);
  }

  lemma StructPanics(vs: seq<Value>)
    ensures Panics(VStruct(vs)) <==> exists i :: 0 <= i < |vs| && Panics(vs[i])
  {
    AnyPanicsIs(vs);
  }

  lemma {:induction false} AnyEntryPanicsIs(es: seq<Entry>)
    ensures AnyEntryPanics(es) <==> exists i :: 0 <= i < |es| && (ElementPanics(es[i].key) || ElementPanics(es[i].value))
  {
    if es != [] {
      AnyEntryPanicsIs(es[1..]);
      if i :| 0 <= i < |es| && (ElementPanics(es[i].key) || ElementPanics(es[i].value)) {
        assert i > 0 ==> es[1..][i - 1] == es[i];
      }
      if i :| 0 <= i < |es[1..]| && (ElementPanics(es[1..][i].key) || ElementPanics(es[1..][i].value)) {
        assert es[i + 1] == es[1..][i];
      }
    }
  }

  predicate Untagged(t: Type) {
    t.TBool? || t.TBytes? || t.TSlice? || t.TMap?
  }

  /** The same for maps, by the types of keys and values. */
  lemma MapPanics(k: Type, t: Type, es: seq<Entry>)
    ensures Panics(VMap(k, t, es)) <==>
      || Untagged(k) || Untagged(t)
      || exists i :: 0 <= i < |es| && (ElementPanics(es[i].key) || ElementPanics(es[i].value))
  {
    ElementTags(k);
    ElementTags(t);
    AnyEntryPanicsIs(es);
  }

  // ----- fields of another kind than the target

  /** What a target holds that nothing was read into. */
  lemma ZeroValues(t: Type)
    ensures HasType(Zero(t), t)
    ensures match t
      case TBool => Zero(t) == VBool(false)
      case TInt(w) => Zero(t) == VInt(w, 0)
      case TUint(w) => Zero(t) == VUint(w, 0)
      case TFloat => Zero(t) == VFloat(0)
      case TString => Zero(t) == VString([])
      case TBytes => Zero(t) == VBytes([])
      case TStruct(ts) => Zero(t) == VStruct(Zeros(ts)) && forall i :: 0 <= i < |ts| ==> Zeros(ts)[i] == Zero(ts[i])
      case TSlice(e) => Zero(t) == VSlice(e, [])
      case TMap(k, e) => Zero(t) == VMap(k, e, [])
    decreases t
  {
    if t.TStruct? {
      ZeroFields(t.fields);
    }
  }

  lemma {:induction false} ZeroFields(ts: seq<Type>)
    ensures HaveTypes(Zeros(ts), ts)
    ensures forall i :: 0 <= i < |ts| ==> Zeros(ts)[i] == Zero(ts[i])
    decreases ts
  {
    if ts != [] {
      ZeroValues(ts[0]);
      ZeroFields(ts[1..]);
      forall i | 0 <= i < |ts| ensures Zeros(ts)[i] == Zero(ts[i]) {
        if i > 0 { assert Zeros(ts)[i] == Zeros(ts[1..])[i - 1] && ts[i] == ts[1..][i - 1]; }
      }
    }
  }

  lemma Described(base: byte, t: Type, data: bytes, pos: nat, end: nat)
    requires Spans(data, pos, end, [base]) && base != 4 && base != 5
    ensures DecodeValue(t, data, pos) == DecodeByField(Field(base, []), t, data, end)
  {
    assert Flatten(Field(base, [])) == [base];
    FieldAt(data, pos, end, Field(base, []));
  }

  /** A single byte goes into a boolean as whether it is not 0, and into any number; elsewhere it panics. */
  lemma CharInto(c: byte, t: Type, data: bytes, pos: nat, end: nat)
    requires Spans(data, pos, end, [1] + [c])
    ensures DecodeValue(t, data, pos) == match t
      case TBool => Ok(VBool(c != 0), end)
      case TInt(w) => Ok(VInt(w, c), end)
      case TUint(w) => Ok(VUint(w, c), end)
      case _ => Panic
  {
    var mid := Split(data, pos, end, [1], [c]);
    Described(1, t, data, pos, mid);
    ByteAt(data, mid, end, c);
  }

  // What truncation leaves: a number of the width that differs from the original by a multiple of its modulus.

  lemma LowMod(x: int, modulus: int, times: int)
    requires modulus > 0 && times > 0 && TWO_64 == modulus * times
    ensures x % TWO_64 % modulus == x % modulus
  {
    var q, u := x / TWO_64, x % TWO_64;
    assert x == u + modulus * (times * q);
    WholeMod(u, times * q, modulus);
  }

  lemma WholeMod(u: int, k: int, modulus: int)
    requires modulus > 0
    ensures (u + modulus * k) % modulus == u % modulus
  {
    var p, r := u / modulus, u % modulus;
    assert u + modulus * k == modulus * (p + k) + r;
    RemainderIs(u + modulus * k, modulus, p + k, r);
  }

  lemma RemainderIs(x: int, modulus: int, q: int, r: int)
    requires 0 <= r < modulus && x == modulus * q + r
    ensures x % modulus == r
  {
    var d := x / modulus - q;
    assert modulus * d == r - x % modulus;
    if d > 0 { AtLeast(modulus, d); }
    if d < 0 { AtLeast(modulus, -d); }
  }

  lemma AtLeast(modulus: int, d: int)
    requires modulus > 0 && d > 0
    ensures modulus * d >= modulus
  {
  }

  lemma LowBits(x: int, w: Width)
    ensures Unsigned64(x) % Modulus(w) == x % Modulus(w)
  {
    match w
    case W16 => LowMod(x, 0x1_0000, 0x1_0000_0000_0000);
    case W32 => LowMod(x, 0x1_0000_0000, 0x1_0000_0000);
    case W64 =>
  }

  lemma NumberAt(u: uint64, t: Type, data: bytes, pos: nat, end: nat)
    requires Spans(data, pos, end, [2] + EncodeUint(u))
    ensures DecodeValue(t, data, pos) == Place(FromNumber(u, t), end)
  {
    var mid := Split(data, pos, end, [2], EncodeUint(u));
    Described(2, t, data, pos, mid);
    UintAt(data, mid, end, u);
  }

  /** A number goes into a boolean as whether it is not 0, into text as decimal text, and nowhere else but into numbers. */
  lemma NumberInto(x: int, t: Type, data: bytes, pos: nat, end: nat)
    requires -TWO_63 <= x < TWO_63 && Spans(data, pos, end, [2] + EncodeUint(Unsigned64(x)))
    ensures t == TBool ==> DecodeValue(t, data, pos) == Ok(VBool(x != 0), end)
    ensures t == TString ==> DecodeValue(t, data, pos) == Ok(VString(Itoa(x)), end)
    ensures t.TFloat? || t.TBytes? || t.TStruct? || t.TSlice? || t.TMap? ==> DecodeValue(t, data, pos) == Panic
  {
    NumberAt(Unsigned64(x), t, data, pos, end);
    SignedRoundTrip(x);
  }

  /** Into an unsigned number it goes with its low bits, as many as the target has. */
  lemma NumberIntoUnsigned(x: int, w: Width, data: bytes, pos: nat, end: nat)
    requires -TWO_63 <= x < TWO_63 && Spans(data, pos, end, [2] + EncodeUint(Unsigned64(x)))
    ensures var y := match w case W16 => x % 0x1_0000 case W32 => x % 0x1_0000_0000 case W64 => x % 0x1_0000_0000_0000_0000;
            DecodeValue(TUint(w), data, pos) == Ok(VUint(w, y), end)
  {
    NumberAt(Unsigned64(x), TUint(w), data, pos, end);
    LowBits(x, w);
  }

  /** Into a signed number too: they are read as the number of that width which agrees with it in them. */
  lemma NumberIntoSigned(x: int, w: Width, y: int, data: bytes, pos: nat, end: nat)
    requires -TWO_63 <= x < TWO_63 && Spans(data, pos, end, [2] + EncodeUint(Unsigned64(x)))
    requires match w
      case W16 => -0x8000 <= y < 0x8000 && y % 0x1_0000 == x % 0x1_0000
      case W32 => -0x8000_0000 <= y < 0x8000_0000 && y % 0x1_0000_0000 == x % 0x1_0000_0000
      case W64 => y == x
    ensures DecodeValue(TInt(w), data, pos) == Ok(VInt(w, y), end)
  {
    NumberAt(Unsigned64(x), TInt(w), data, pos, end);
    LowBits(x, w);
    AgreesSigned(x, w, y);
  }

  lemma AgreesSigned(x: int, w: Width, y: int)
    requires Unsigned64(x) % Modulus(w) == x % Modulus(w) == y % Modulus(w)
    requires -(Modulus(w) / 2) <= y < Modulus(w) / 2
    ensures Signed(Unsigned64(x), Modulus(w)) == y
  {
  }

  /** Text goes into text, into signed numbers of 32 and 64 bits as the number it reads as, and nowhere else. */
  lemma TextInto(s: bytes, t: Type, data: bytes, pos: nat, end: nat)
    requires |s| < TWO_63 && Spans(data, pos, end, [3] + EncodeString(s))
    ensures t == TString ==> DecodeValue(t, data, pos) == Ok(VString(s), end)
    ensures t == TInt(W64) ==> DecodeValue(t, data, pos) == Ok(VInt(W64, ParseInt(s)), end)
    ensures t == TInt(W32) && -0x8000_0000 <= ParseInt(s) < 0x8000_0000 ==>
              DecodeValue(t, data, pos) == Ok(VInt(W32, ParseInt(s)), end)
    ensures t != TString && t != TInt(W32) && t != TInt(W64) ==> DecodeValue(t, data, pos) == Panic
  {
    var mid := Split(data, pos, end, [3], EncodeString(s));
    Described(3, t, data, pos, mid);
    StringAt(data, mid, end, s);
    var x := ParseInt(s);
    if -0x8000_0000 <= x < 0x8000_0000 {
      SignedLow32(x);
    }
  }

  /** Byte strings go into byte strings only. */
  lemma OctetStringInto(s: bytes, t: Type, data: bytes, pos: nat, end: nat)
    requires |s| < TWO_63 && Spans(data, pos, end, [8] + EncodeString(s))
    ensures DecodeValue(t, data, pos) == if t == TBytes then Ok(VBytes(s), end) else Panic
  {
    var mid := Split(data, pos, end, [8], EncodeString(s));
    Described(8, t, data, pos, mid);
    StringAt(data, mid, end, s);
  }

  /** A descriptor the decoder has no case for leaves the target alone and nothing behind the descriptor is read. */
  lemma UnknownLeft(base: byte, t: Type, data: bytes, pos: nat, end: nat)
    requires Spans(data, pos, end, [base]) && (base == 0 || base == 7 || base >= 9)
    ensures DecodeValue(t, data, pos) == Ok(Zero(t), end)
  {
    Described(base, t, data, pos, end);
  }

  /** A struct goes into structs only. */
  lemma StructIntoOther(t: Type, data: bytes, pos: nat, end: nat)
    requires Spans(data, pos, end, [6]) && !t.TStruct?
    ensures DecodeValue(t, data, pos) == Panic
  {
    Described(6, t, data, pos, end);
  }

  // ----- counts, lists of bytes, maps and surplus fields

  lemma DescribedList(e: byte, t: Type, data: bytes, pos: nat, end: nat)
    requires Spans(data, pos, end, [4, e]) && e != 4 && e != 5
    ensures DecodeValue(t, data, pos) == DecodeArray(Field(e, []), t, data, end)
  {
    var f := Field(4, [Field(e, [])]);
    FlattenOne(Field(e, []));
    assert Flatten(f) == [4] + ([e] + []) == [4, e];
    FieldAt(data, pos, end, f);
  }

  lemma DescribedMap(k: byte, e: byte, t: Type, data: bytes, pos: nat, end: nat)
    requires Spans(data, pos, end, [5, k, e]) && k != 4 && k != 5 && e != 4 && e != 5
    ensures DecodeValue(t, data, pos) == DecodeMap(Field(k, []), Field(e, []), t, data, end)
  {
    var f := Field(5, [Field(k, []), Field(e, [])]);
    FlattenPair(Field(k, []), Field(e, []));
    assert Flatten(f) == [5] + (([k] + []) + ([e] + [])) == [5, k, e];
    FieldAt(data, pos, end, f);
  }

  /** Lists go into slices and byte strings, maps into maps only. */
  lemma ListIntoOther(e: byte, k: byte, t: Type, data: bytes, pos: nat, end: nat)
    requires e != 4 && e != 5 && k != 4 && k != 5
    ensures Spans(data, pos, end, [4, e]) && !t.TSlice? && !t.TBytes? ==> DecodeValue(t, data, pos) == Panic
    ensures Spans(data, pos, end, [5, k, e]) && !t.TMap? ==> DecodeValue(t, data, pos) == Panic
  {
    if Spans(data, pos, end, [4, e]) {
      DescribedList(e, t, data, pos, end);
    }
    if Spans(data, pos, end, [5, k, e]) {
      DescribedMap(k, e, t, data, pos, end);
    }
  }

  /** A count from 2^31 on is negative: a list then panics, and a map is empty. */
  lemma NegativeCount(u: uint64, e: byte, k: byte, t: Type, data: bytes, pos: nat, mid: nat, end: nat)
    requires e != 4 && e != 5 && k != 4 && k != 5 && 0x8000_0000 <= u % 0x1_0000_0000
    requires Spans(data, mid, end, EncodeUint(u))
    ensures Spans(data, pos, mid, [4, e]) ==> DecodeValue(t, data, pos) == Panic
    ensures Spans(data, pos, mid, [5, k, e]) && t.TMap? ==> DecodeValue(t, data, pos) == Ok(VMap(t.key, t.elem, []), end)
  {
    UintAt(data, mid, end, u);
    if Spans(data, pos, mid, [4, e]) {
      DescribedList(e, t, data, pos, mid);
    }
    if Spans(data, pos, mid, [5, k, e]) {
      DescribedMap(k, e, t, data, pos, mid);
    }
  }

  ghost predicate Numbers(vs: seq<Value>) {
    forall i :: 0 <= i < |vs| ==> vs[i].VUint? && vs[i].u < TWO_64
  }

  lemma {:induction false} OctetItems(vs: seq<Value>, data: bytes, pos: nat, end: nat) returns (s: bytes)
    requires Numbers(vs) && Spans(data, pos, end, Bodies(vs))
    ensures DecodeOctets(2, |vs|, data, pos) == Ok(s, end)
    ensures |s| == |vs| && forall i :: 0 <= i < |vs| ==> s[i] == vs[i].u % 256
  {
    s := [];
    if vs != [] {
      var v, rest := vs[0], vs[1..];
      assert v.VUint? && v.u < TWO_64;
      Unwrapped(v.u);
      assert ElementBody(v) == EncodeUint(v.u);
      var mid := Split(data, pos, end, EncodeUint(v.u), Bodies(rest));
      UintAt(data, pos, mid, v.u);
      var more := OctetItems(rest, data, mid, end);
      s := [v.u % 256] + more;
      NextOctet(|rest|, v.u, data, pos, mid, more, end);
      forall i | 0 <= i < |vs| ensures s[i] == vs[i].u % 256 {
        if i > 0 { assert vs[i] == rest[i - 1]; }
      }
    }
  }

  lemma NextOctet(n: nat, u: uint64, data: bytes, pos: nat, mid: nat, more: bytes, end: nat)
    requires DecodeUint(data, pos) == (u, mid) && DecodeOctets(2, n, data, mid) == Ok(more, end)
    ensures DecodeOctets(2, n + 1, data, pos) == Ok([u % 256] + more, end)
  {
  }

  /** A slice of numbers goes into a byte string as their low bytes. */
  lemma NumbersIntoOctets(w: Width, vs: seq<Value>, data: bytes, pos: nat, end: nat) returns (s: bytes)
    requires Numbers(vs) && |vs| < 0x8000_0000 && Spans(data, pos, end, Encode(VSlice(TUint(w), vs)))
    ensures DecodeValue(TBytes, data, pos) == Ok(VBytes(s), end)
    ensures |s| == |vs| && forall i :: 0 <= i < |vs| ==> s[i] == vs[i].u % 256
  {
    var n := |vs|;
    var v := VSlice(TUint(w), vs);
    var body := Split(data, pos, end, Descriptor(v), Body(v));
    assert Descriptor(v) == [4, 2];
    DescribedList(2, TBytes, data, pos, body);
    var mid := Split(data, body, end, EncodeUint(Unsigned64(n)), Bodies(vs));
    CountAt(data, body, mid, n);
    s := OctetItems(vs, data, mid, end);
  }

  /** Characters go into a byte string as they are, elements of no known kind as zeros; any other element panics. */
  lemma {:induction false} OtherOctets(base: byte, n: nat, data: bytes, pos: nat)
    ensures n > 0 && (3 <= base <= 6 || base == 8) ==> DecodeOctets(base, n, data, pos) == Panic
    ensures base == 1 && pos + n <= |data| ==> DecodeOctets(base, n, data, pos) == Ok(data[pos..pos + n], pos + n)
    ensures base == 0 || base == 7 || base >= 9 ==> DecodeOctets(base, n, data, pos) == Ok(seq(n, _ => 0), pos)
  {
    if n > 0 {
      var l := n - 1;
      if base == 1 && pos + n <= |data| {
        OtherOctets(base, l, data, pos + 1);
        assert data[pos..pos + n] == [data[pos]] + data[pos + 1..(pos + 1) + l];
      } else {
        OtherOctets(base, l, data, pos);
        assert seq(n, _ => 0) == [0] + seq(l, _ => 0);
      }
    } else {
      assert seq(n, _ => 0) == [];
      assert pos <= |data| ==> data[pos..pos] == [];
    }
  }

  /** An entry read is put into the map read so far, over one with the same key. */
  lemma EntryPut(e: Entry, k: Type, t: Type, done: seq<Entry>, data: bytes, pos: nat, end: nat)
    requires EntryHasType(e, k, t) && EntryPortable(e) && ElementTag(k).Some? && ElementTag(t).Some?
    requires Spans(data, pos, end, EntryBody(e))
    ensures DecodeEntries(Field(TagOf(k), []), Field(TagOf(t), []), k, t, 1, done, data, pos) == Ok(PutEntry(done, e), end)
  {
    var mid := EntryAt(e, k, t, data, pos, end);
    assert Entry(e.key, e.value) == e;
  }

  /** Putting an entry into a listed map is an assignment to the map. */
  lemma {:induction false} PutIsAssignment(es: seq<Entry>, e: Entry, k: Value)
    ensures HasKey(PutEntry(es, e), k) <==> k == e.key || HasKey(es, k)
    ensures DistinctKeys(es) ==> DistinctKeys(PutEntry(es, e))
    ensures e in PutEntry(es, e)
    ensures forall f :: f in es && f.key != e.key ==> f in PutEntry(es, e)
  {
    var r := PutEntry(es, e);
    if es == [] {
      assert r == [e] && r[0].key == e.key;
    } else {
      var rest := es[1..];
      HasFirst(es, rest, k);
      if es[0].key == e.key {
        assert r[0] == e && r[1..] == rest;
        HasFirst(r, rest, k);
      } else {
        PutIsAssignment(rest, e, k);
        var more := PutEntry(rest, e);
        assert r[0] == es[0] && r[1..] == more;
        HasFirst(r, more, k);
        if DistinctKeys(es) {
          NewFirst(es, rest);
          PutIsAssignment(rest, e, es[0].key);
          FirstNew(r, more);
        }
      }
    }
  }

  lemma HasFirst(es: seq<Entry>, rest: seq<Entry>, k: Value)
    requires es != [] && rest == es[1..]
    ensures HasKey(es, k) <==> es[0].key == k || HasKey(rest, k)
  {
    if i :| 0 <= i < |es| && es[i].key == k {
      assert i > 0 ==> rest[i - 1].key == k;
    }
    if i :| 0 <= i < |rest| && rest[i].key == k {
      assert es[i + 1].key == k;
    }
  }

  lemma NewFirst(es: seq<Entry>, rest: seq<Entry>)
    requires es != [] && rest == es[1..] && DistinctKeys(es)
    ensures DistinctKeys(rest) && !HasKey(rest, es[0].key)
  {
    assert forall i :: 0 <= i < |rest| ==> rest[i] == es[i + 1];
  }

  lemma FirstNew(es: seq<Entry>, rest: seq<Entry>)
    requires es != [] && rest == es[1..] && DistinctKeys(rest) && !HasKey(rest, es[0].key)
    ensures DistinctKeys(es)
  {
    forall i, j | 0 <= i < j < |es| ensures es[i].key != es[j].key {
      assert es[j] == rest[j - 1];
      if i > 0 { assert es[i] == rest[i - 1]; }
    }
  }

  /** One field more than the target has: its descriptor is read, and the cursor is left before its value. */
  lemma SurplusField(vs: seq<Value>, ts: seq<Type>, extra: Value, data: bytes, pos: nat, end: nat) returns (mid: nat)
    requires |vs| < 255 && HaveTypes(vs, ts) && AllPortable(vs)
    requires Spans(data, pos, end, [6] + ([|vs| + 1] + (EncodeAll(vs) + Encode(extra))))
    ensures DecodeValue(TStruct(ts), data, pos) == Ok(VStruct(vs), mid) && Spans(data, mid, end, Body(extra))
  {
    var n := |vs| + 1;
    var p := Split(data, pos, end, [6], [n] + (EncodeAll(vs) + Encode(extra)));
    Described(6, TStruct(ts), data, pos, p);
    var q := Split(data, p, end, [n], EncodeAll(vs) + Encode(extra));
    ByteAt(data, p, q, n);
    mid := ThenSurplus(vs, ts, extra, data, q, end);
    CountedFields(ts, n, data, p, q);
  }

  lemma FieldThenMore(vs: seq<Value>, v: Value, rest: seq<Value>, more: bytes)
    requires vs != [] && v == vs[0] && rest == vs[1..]
    ensures EncodeAll(vs) + more == Encode(v) + (EncodeAll(rest) + more)
    ensures vs == [v] + rest
  {
    Associate(Encode(v), EncodeAll(rest), more);
  }

  lemma Associate(a: bytes, b: bytes, c: bytes)
    ensures (a + b) + c == a + (b + c)
  {
  }

  lemma {:induction false} ThenSurplus(vs: seq<Value>, ts: seq<Type>, extra: Value, data: bytes, pos: nat, end: nat)
    returns (mid: nat)
    requires HaveTypes(vs, ts) && AllPortable(vs) && Spans(data, pos, end, EncodeAll(vs) + Encode(extra))
    ensures DecodeFields(ts, |vs| + 1, data, pos) == Ok(vs, mid) && Spans(data, mid, end, Body(extra))
  {
    if vs == [] {
      assert [] + Encode(extra) == Encode(extra);
      mid := Split(data, pos, end, Descriptor(extra), Body(extra));
      FieldOfFlattens(extra);
      FieldAt(data, pos, mid, FieldOf(extra));
    } else {
      var v, rest, t, types := vs[0], vs[1..], ts[0], ts[1..];
      FieldThenMore(vs, v, rest, Encode(extra));
      var p := Split(data, pos, end, Encode(v), EncodeAll(rest) + Encode(extra));
      ValueAt(v, t, data, pos, p);
      mid := ThenSurplus(rest, types, extra, data, p, end);
      NextField(ts, t, types, |rest| + 1, data, pos, v, p, rest, mid);
    }
  }
}
