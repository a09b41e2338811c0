/** The encoder's growing buffer: every method appends exactly what the format says. */
module EncBuffers {
  import opened Words
  import opened Varint
  import opened Wire
  import opened Values
  import opened Arguments

  /** The bytes of the groups that are left to write; none when only leading zeros are. */
  ghost function Groups(left: nat): bytes {
    if left > 0 then EncodeUint(left) else []
  }

  lemma FirstGroup(before: bytes, left: nat, ch: byte)
    requires left > 0 && ch == left % 128 + if left / 128 > 0 then 128 else 0
    ensures before + Groups(left) == (before + [ch]) + Groups(left / 128)
  {
  }

  lemma Reassociate(a: bytes, b: bytes, c: bytes, d: bytes)
    ensures a + b + c + d == a + (b + (c + d))
  {
  }

  /** The next field of a struct or list is written in front of the remaining ones. */
  lemma FieldInFront(before: bytes, vs: seq<Value>, i: nat)
    requires i < |vs|
    ensures before + EncodeAll(vs[i..]) == (before + Encode(vs[i])) + EncodeAll(vs[i + 1..])
    ensures AnyPanics(vs[i..]) == (Panics(vs[i]) || AnyPanics(vs[i + 1..]))
  {
    assert vs[i..][1..] == vs[i + 1..];
  }

  lemma ItemInFront(before: bytes, vs: seq<Value>, i: nat)
    requires i < |vs|
    ensures before + Bodies(vs[i..]) == (before + ElementBody(vs[i])) + Bodies(vs[i + 1..])
    ensures AnyElementPanics(vs[i..]) == (ElementPanics(vs[i]) || AnyElementPanics(vs[i + 1..]))
  {
    assert vs[i..][1..] == vs[i + 1..];
  }

  lemma EntryInFront(before: bytes, es: seq<Entry>, i: nat)
    requires i < |es|
    ensures before + EntryBodies(es[i..]) == (before + EntryBody(es[i])) + EntryBodies(es[i + 1..])
    ensures AnyEntryPanics(es[i..]) == (EntryPanics(es[i]) || AnyEntryPanics(es[i + 1..]))
  {
    assert es[i..][1..] == es[i + 1..];
  }

  lemma CountedFirst(before: bytes, n: byte, rest: bytes)
    ensures (before + [n]) + rest == before + ([n] + rest)
  {
  }

  class EncBuffer {
    var data: bytes

    constructor ()
      ensures data == []
    {
      data := [];
    }

    method WriteByte(b: byte)
      modifies this
      ensures data == old(data) + [b]
    {
      data := data + [b];
    }

    /** The low seven bits go first; the continuation bit is set as long as bits are left. */
    method PackUint(val: uint64)
      modifies this
      ensures data == old(data) + EncodeUint(val)
    {
      if val == 0 {
        WriteByte(0);
        return;
      }
      var left: nat := val;
      ghost var whole := data + EncodeUint(val);
      while left > 0
        invariant data + Groups(left) == whole
      {
        var ch := left % 128;
        ghost var before, rest := data, left;
        left := left / 128;
        if left > 0 {
          ch := ch + 128;
        }
        WriteByte(ch);
        FirstGroup(before, rest, ch);
      }
    }

    method PackNum(val: int)
      modifies this
      ensures data == old(data) + EncodeUint(Unsigned64(val))
    {
      PackUint(Unsigned64(val));
    }

    /** Texts and byte slices; nothing but the length is written for an empty one. */
    method PackString(s: bytes)
      modifies this
      ensures data == old(data) + EncodeString(s)
    {
      PackNum(|s|);
      if |s| > 0 {
        data := data + s;
      }
    }

    /** A value behind its type descriptor; `ok` is false where the source panics. */
    method EncodeValue(v: Value) returns (ok: bool)
      modifies this
      ensures ok == !Panics(v)
      ensures ok ==> data == old(data) + Encode(v)
      decreases v, 3
    {
      match v {
        case VBytes(s) =>
          WriteByte(FT_BYTES);
          PackString(s);
          ok := true;
        case VSlice(e, vs) => ok := EncodeSlice(e, vs);
        case VMap(k, e, es) => ok := EncodeMap(k, e, es);
        case VBool(_) => ok := EncodeTagged(FT_CHAR, v);
        case VFloat(_) => ok := EncodeTagged(FT_FLOAT, v);
        case VString(_) => ok := EncodeTagged(FT_STRING, v);
        case VStruct(_) => ok := EncodeTagged(FT_STRUCT, v);
        case VInt(_, _) => ok := EncodeTagged(FT_NUMBER, v);
        case VUint(_, _) => ok := EncodeTagged(FT_NUMBER, v);
      }
    }

    method EncodeTagged(tag: byte, v: Value) returns (ok: bool)
      requires !v.VBytes? && !v.VSlice? && !v.VMap? && Descriptor(v) == [tag]
      modifies this
      ensures ok == !Panics(v)
      ensures ok ==> data == old(data) + Encode(v)
      decreases v, 2
    {
      WriteByte(tag);
      ok := EncodeNoType(v);
    }

    /** An element without a descriptor. */
    method EncodeNoType(v: Value) returns (ok: bool)
      modifies this
      ensures ok == !ElementPanics(v)
      ensures ok ==> data == old(data) + ElementBody(v)
      decreases v, 1
    {
      ok := true;
      match v {
        case VBool(b) => WriteByte(if b then 1 else 0);
        case VInt(_, i) => PackUint(Unsigned64(i));
        case VUint(_, u) => PackUint(u % TWO_64);
        case VFloat(bits) => PackUint(bits);
        case VString(s) => PackString(s);
        case VStruct(vs) =>
          WriteByte(|vs| % 256);
          ok := EncodeFields(vs);
        case _ =>
      }
    }

    method EncodeFields(vs: seq<Value>) returns (ok: bool)
      modifies this
      ensures ok == !AnyPanics(vs)
      ensures ok ==> data == old(data) + EncodeAll(vs)
      decreases vs, 4
    {
      for i := 0 to |vs|
        invariant AnyPanics(vs) == AnyPanics(vs[i..])
        invariant data + EncodeAll(vs[i..]) == old(data) + EncodeAll(vs)
      {
        FieldInFront(data, vs, i);
        ok := EncodeValue(vs[i]);
        if !ok { return; }
      }
      ok := true;
    }

    method EncodeSlice(e: Type, vs: seq<Value>) returns (ok: bool)
      modifies this
      ensures ok == !Panics(VSlice(e, vs))
      ensures ok ==> data == old(data) + Encode(VSlice(e, vs))
      decreases vs, 5
    {
      WriteByte(FT_ARRAY);
      if ElementTag(e).None? {
        return false;
      }
      WriteByte(ElementTag(e).value);
      assert data == old(data) + Descriptor(VSlice(e, vs));
      PackNum(|vs|);
      ok := EncodeItems(vs);
      Reassociate(old(data), Descriptor(VSlice(e, vs)), EncodeUint(Unsigned64(|vs|)), Bodies(vs));
    }

    method EncodeItems(vs: seq<Value>) returns (ok: bool)
      modifies this
      ensures ok == !AnyElementPanics(vs)
      ensures ok ==> data == old(data) + Bodies(vs)
      decreases vs, 4
    {
      for i := 0 to |vs|
        invariant AnyElementPanics(vs) == AnyElementPanics(vs[i..])
        invariant data + Bodies(vs[i..]) == old(data) + Bodies(vs)
      {
        ItemInFront(data, vs, i);
        ok := EncodeNoType(vs[i]);
        if !ok { return; }
      }
      ok := true;
    }

    method EncodeMap(k: Type, e: Type, es: seq<Entry>) returns (ok: bool)
      modifies this
      ensures ok == !Panics(VMap(k, e, es))
      ensures ok ==> data == old(data) + Encode(VMap(k, e, es))
      decreases es, 5
    {
      WriteByte(FT_MAP);
      if ElementTag(k).None? || ElementTag(e).None? {
        return false;
      }
      WriteByte(ElementTag(k).value);
      WriteByte(ElementTag(e).value);
      assert data == old(data) + Descriptor(VMap(k, e, es));
      PackNum(|es|);
      ok := EncodeEntries(es);
      Reassociate(old(data), Descriptor(VMap(k, e, es)), EncodeUint(Unsigned64(|es|)), EntryBodies(es));
    }

    method EncodeEntries(es: seq<Entry>) returns (ok: bool)
      modifies this
      ensures ok == !AnyEntryPanics(es)
      ensures ok ==> data == old(data) + EntryBodies(es)
      decreases es, 4
    {
      for i := 0 to |es|
        invariant AnyEntryPanics(es) == AnyEntryPanics(es[i..])
        invariant data + EntryBodies(es[i..]) == old(data) + EntryBodies(es)
      {
        EntryInFront(data, es, i);
        ok := EncodeEntry(es[i]);
        if !ok { return; }
      }
      ok := true;
    }

    method EncodeEntry(entry: Entry) returns (ok: bool)
      modifies this
      ensures ok == !EntryPanics(entry)
      ensures ok ==> data == old(data) + EntryBody(entry)
      decreases entry, 4
    {
      ok := EncodeNoType(entry.key);
      if ok {
        ok := EncodeNoType(entry.value);
      }
    }

    /** Arguments: a list field by field, anything else as a list of one. */
    method EncodeArguments(a: Args) returns (ok: bool)
      modifies this
      ensures ok == match a case List(vs) => !AnyPanics(vs) case Single(v) => !Panics(v)
      ensures ok ==> data == old(data) + EncodeArgs(a)
    {
      match a {
        case List(vs) =>
          CountedFirst(data, |vs| % 256, EncodeAll(vs));
          WriteByte(|vs| % 256);
          ok := EncodeFields(vs);
        case Single(v) =>
          CountedFirst(data, 1, Encode(v));
          WriteByte(1);
          ok := EncodeValue(v);
      }
    }

    /** The payload of a reply: return code, then the encoded reply. */
    method EncodeReply(retcode: int, reply: bytes)
      modifies this
      ensures data == old(data) + EncodeRetArgs(retcode, reply)
    {
      PackUint(Unsigned64(retcode));
      data := data + reply;
    }
  }
}
