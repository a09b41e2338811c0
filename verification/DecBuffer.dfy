/** The decoder's cursor over a byte slice: every method reads exactly what the format functions say. */
module DecBuffers {
  import opened Words
  import opened Varint
  import opened Wire
  import opened Values
  import opened Skipping
  import opened Arguments

  /** The outcome of a read agrees with the format: the value and the new cursor, or a panic. */
  ghost predicate Reads<T>(r: Option<T>, spec: Parsed<T>, curpos: nat) {
    match spec
    case Ok(v, p) => r == Some(v) && curpos == p
    case Panic => r == None
  }

  /** Elements already read in front of what the rest of the read yields. */
  ghost function Prepend<T>(front: seq<T>, rest: Parsed<seq<T>>): Parsed<seq<T>> {
    match rest
    case Ok(vs, p) => Ok(front + vs, p)
    case Panic => Panic
  }

  lemma PrependNothing<T>(rest: Parsed<seq<T>>)
    ensures Prepend([], rest) == rest
  {
    if rest.Ok? {
      assert [] + rest.value == rest.value;
    }
  }

  lemma PrependOne<T>(front: seq<T>, x: T, rest: Parsed<seq<T>>)
    ensures Prepend(front + [x], rest) == Prepend(front, Prepend([x], rest))
  {
    if rest.Ok? {
      assert front + [x] + rest.value == front + ([x] + rest.value);
    }
  }

  class DecBuffer {
    const data: bytes
    var curpos: nat

    constructor (data: bytes)
      ensures this.data == data && curpos == 0
    {
      this.data, curpos := data, 0;
    }

    method UnpackByte() returns (r: Option<byte>)
      modifies this
      ensures Reads(r, DecodeByte(data, old(curpos)), curpos)
    {
      if curpos >= |data| {
        return None;
      }
      r := Some(data[curpos]);
      curpos := curpos + 1;
    }

    /** Accumulates groups in 64-bit arithmetic; data that ends inside a number reads as 0. */
    method UnpackUint64() returns (val: uint64)
      modifies this
      ensures (val, curpos) == DecodeUint(data, old(curpos))
    {
      var exp: uint64 := 1;
      val := 0;
      ghost var start := curpos;
      if start <= |data| {
        NothingRead(data, start);
      }
      while curpos < |data|
        invariant if start <= |data| then Accumulated(data, start, curpos, val, exp) else curpos == start
      {
        var ch := data[curpos];
        var sum: uint64 := (val + ch % 128 * exp % TWO_64) % TWO_64;
        AccumulateByte(data, start, curpos, val, exp, ch, sum);
        curpos := curpos + 1;
        val := sum;
        if ch < 128 {
          return;
        }
        exp := exp * 128 % TWO_64;
      }
      val := 0;
    }

    /** A count: the low 32 bits as a signed number. */
    method UnpackNum() returns (n: int)
      modifies this
      ensures (n, curpos) == DecodeCount(data, old(curpos))
    {
      var u := UnpackUint64();
      n := Signed(u, TWO_32);
    }

    method UnpackString() returns (r: Option<bytes>)
      modifies this
      ensures Reads(r, DecodeString(data, old(curpos)), curpos)
    {
      var u := UnpackUint64();
      var slen := Signed(u, TWO_64);
      if slen == 0 {
        return Some([]);
      }
      if slen < 0 || curpos + slen > |data| {
        return None;
      }
      r := Some(data[curpos..curpos + slen]);
      curpos := curpos + slen;
    }

    method ReadField() returns (r: Option<Field>)
      modifies this
      ensures Reads(r, UnpackField(data, old(curpos)), curpos)
      ensures r.Some? ==> WellFormed(r.value) && curpos > old(curpos)
      decreases Left(data, curpos)
    {
      var base := UnpackByte();
      if base == None {
        return None;
      }
      if base.value == FT_ARRAY {
        var f := ReadField();
        if f == None { return None; }
        r := Some(Field(FT_ARRAY, [f.value]));
      } else if base.value == FT_MAP {
        var k := ReadField();
        if k == None { return None; }
        var v := ReadField();
        if v == None { return None; }
        r := Some(Field(FT_MAP, [k.value, v.value]));
      } else {
        r := Some(Field(base.value, []));
      }
    }

    /** Decodes one value into a fresh target of type `t`. */
    method DecodeInto(t: Type) returns (r: Option<Value>)
      modifies this
      ensures Reads(r, DecodeValue(t, data, old(curpos)), curpos)
      decreases t, 3
    {
      var f := ReadField();
      if f == None {
        return None;
      }
      r := DecodeDescribed(f.value, t);
    }

    method DecodeDescribed(f: Field, t: Type) returns (r: Option<Value>)
      requires WellFormed(f)
      modifies this
      ensures Reads(r, DecodeByField(f, t, data, old(curpos)), curpos)
      decreases t, 2
    {
      if f.base == FT_ARRAY {
        r := DecodeArrayInto(f.sub[0], t);
      } else if f.base == FT_MAP {
        r := DecodeMapInto(f.sub[0], f.sub[1], t);
      } else if f.base == FT_STRUCT {
        r := DecodeStructInto(t);
      } else {
        r := DecodeScalarInto(f.base, t);
      }
    }

    method DecodeScalarInto(base: byte, t: Type) returns (r: Option<Value>)
      modifies this
      ensures Reads(r, DecodeScalar(base, t, data, old(curpos)), curpos)
    {
      if base == FT_CHAR {
        var c := UnpackByte();
        if c == None { return None; }
        r := FromChar(c.value, t);
      } else if base == FT_NUMBER {
        var u := UnpackUint64();
        r := FromNumber(u, t);
      } else if base == FT_STRING {
        var s := UnpackString();
        if s == None { return None; }
        r := FromText(s.value, t);
      } else if base == FT_BYTES {
        var s := UnpackString();
        if s == None || !t.TBytes? { return None; }
        r := Some(VBytes(s.value));
      } else {
        r := Some(Zero(t));
      }
    }

    method DecodeArrayInto(f: Field, t: Type) returns (r: Option<Value>)
      requires WellFormed(f)
      modifies this
      ensures Reads(r, DecodeArray(f, t, data, old(curpos)), curpos)
      decreases t, 1
    {
      var n := UnpackNum();
      if n < 0 {
        return None;
      }
      if t.TSlice? {
        var vs := DecodeItemsInto(f, t.elem, n);
        if vs == None { return None; }
        r := Some(VSlice(t.elem, vs.value));
      } else if t.TBytes? {
        var s := DecodeOctetsInto(f.base, n);
        if s == None { return None; }
        r := Some(VBytes(s.value));
      } else {
        r := None;
      }
    }

    method DecodeItemsInto(f: Field, t: Type, n: nat) returns (r: Option<seq<Value>>)
      requires WellFormed(f)
      modifies this
      ensures Reads(r, DecodeItems(f, t, n, data, old(curpos)), curpos)
      decreases t, 3, n
    {
      var vs := [];
      PrependNothing(DecodeItems(f, t, n, data, curpos));
      for i := 0 to n
        invariant |vs| == i
        invariant DecodeItems(f, t, n, data, old(curpos)) == Prepend(vs, DecodeItems(f, t, n - i, data, curpos))
      {
        var v := DecodeDescribed(f, t);
        if v == None {
          return None;
        }
        PrependOne(vs, v.value, DecodeItems(f, t, n - i - 1, data, curpos));
        vs := vs + [v.value];
      }
      assert vs + [] == vs;
      r := Some(vs);
    }

    method DecodeOctetsInto(base: byte, n: nat) returns (r: Option<bytes>)
      modifies this
      ensures Reads(r, DecodeOctets(base, n, data, old(curpos)), curpos)
    {
      var s := [];
      PrependNothing(DecodeOctets(base, n, data, curpos));
      for i := 0 to n
        invariant DecodeOctets(base, n, data, old(curpos)) == Prepend(s, DecodeOctets(base, n - i, data, curpos))
      {
        var c: byte := 0;
        if base == FT_STRING || base == FT_BYTES || base == FT_ARRAY || base == FT_MAP || base == FT_STRUCT {
          return None;
        } else if base == FT_CHAR {
          var b := UnpackByte();
          if b == None { return None; }
          c := b.value;
        } else if base == FT_NUMBER {
          var u := UnpackUint64();
          c := u % 256;
        }
        PrependOne(s, c, DecodeOctets(base, n - i - 1, data, curpos));
        s := s + [c];
      }
      assert s + [] == s;
      r := Some(s);
    }

    method DecodeMapInto(fk: Field, fv: Field, t: Type) returns (r: Option<Value>)
      requires WellFormed(fk) && WellFormed(fv)
      modifies this
      ensures Reads(r, DecodeMap(fk, fv, t, data, old(curpos)), curpos)
      decreases t, 1
    {
      if !t.TMap? {
        return None;
      }
      var n := UnpackNum();
      var es := DecodeEntriesInto(fk, fv, t.key, t.elem, n);
      if es == None {
        return None;
      }
      r := Some(VMap(t.key, t.elem, es.value));
    }

    method DecodeEntriesInto(fk: Field, fv: Field, kt: Type, vt: Type, n: int) returns (r: Option<seq<Entry>>)
      requires WellFormed(fk) && WellFormed(fv)
      modifies this
      ensures Reads(r, DecodeEntries(fk, fv, kt, vt, n, [], data, old(curpos)), curpos)
      decreases TMap(kt, vt), 0
    {
      var es, left := [], n;
      while left > 0
        invariant DecodeEntries(fk, fv, kt, vt, n, [], data, old(curpos))
               == DecodeEntries(fk, fv, kt, vt, left, es, data, curpos)
      {
        var k := DecodeDescribed(fk, kt);
        if k == None {
          return None;
        }
        var v := DecodeDescribed(fv, vt);
        if v == None {
          return None;
        }
        es := PutEntry(es, Entry(k.value, v.value));
        left := left - 1;
      }
      r := Some(es);
    }

    method DecodeStructInto(t: Type) returns (r: Option<Value>)
      modifies this
      ensures Reads(r, DecodeStructBody(t, data, old(curpos)), curpos)
      decreases t, 1
    {
      var n := UnpackByte();
      if n == None || !t.TStruct? {
        return None;
      }
      var vs := DecodeFieldsInto(t.fields, n.value);
      if vs == None {
        return None;
      }
      r := Some(VStruct(vs.value));
    }

    /** The fields on the wire, up to the fields of the target; then the descriptors of extra ones. */
    method DecodeFieldsInto(ts: seq<Type>, n: nat) returns (r: Option<seq<Value>>)
      modifies this
      ensures Reads(r, DecodeFields(ts, n, data, old(curpos)), curpos)
      decreases ts, 3
    {
      var vs := [];
      var i := 0;
      assert ts[0..] == ts;
      PrependNothing(DecodeFields(ts, n, data, curpos));
      while i < n && i < |ts|
        invariant 0 <= i <= n && i <= |ts| && |vs| == i
        invariant DecodeFields(ts, n, data, old(curpos)) == Prepend(vs, DecodeFields(ts[i..], n - i, data, curpos))
        decreases n - i
      {
        assert ts[i..][1..] == ts[i + 1..];
        var v := DecodeInto(ts[i]);
        if v == None {
          return None;
        }
        PrependOne(vs, v.value, DecodeFields(ts[i + 1..], n - i - 1, data, curpos));
        vs := vs + [v.value];
        i := i + 1;
      }
      vs := vs + Zeros(ts[i..]);
      if i == |ts| {
        var ok := SkipDescriptors(n - i);
        if !ok {
          return None;
        }
      }
      r := Some(vs);
    }

    method SkipDescriptors(n: nat) returns (ok: bool)
      modifies this
      ensures ok == DecodeFields([], n, data, old(curpos)).Ok?
      ensures ok ==> DecodeFields([], n, data, old(curpos)) == Ok([], curpos)
    {
      for i := 0 to n
        invariant DecodeFields([], n, data, old(curpos)) == DecodeFields([], n - i, data, curpos)
      {
        var f := ReadField();
        if f == None {
          return false;
        }
      }
      ok := true;
    }

    /** Skips a descriptor and the value it describes. */
    method PeekValue() returns (r: Option<()>)
      modifies this
      ensures Reads(r, SkipValue(data, old(curpos)), curpos)
      decreases Left(data, curpos), 0, 0
    {
      var f := ReadField();
      if f == None {
        return None;
      }
      r := PeekBody(f.value);
    }

    method PeekBody(f: Field) returns (r: Option<()>)
      requires WellFormed(f)
      modifies this
      ensures Reads(r, SkipBody(f, data, old(curpos)), curpos)
      decreases Left(data, curpos), Depth(f), 0
    {
      r := Some(());
      if f.base == FT_CHAR {
        curpos := curpos + 1;
      } else if f.base == FT_NUMBER || f.base == FT_FLOAT || f.base == FT_DATE {
        var _ := UnpackUint64();
      } else if f.base == FT_STRING || f.base == FT_BYTES {
        var s := UnpackString();
        r := if s == None then None else Some(());
      } else if f.base == FT_STRUCT {
        var n := UnpackByte();
        if n == None { return None; }
        r := PeekFields(n.value);
      } else if f.base == FT_ARRAY {
        var n := UnpackNum();
        r := PeekItems(f.sub[0], n);
      } else if f.base == FT_MAP {
        var n := UnpackNum();
        r := PeekEntries(f.sub[0], f.sub[1], n);
      }
    }

    method PeekFields(n: nat) returns (r: Option<()>)
      modifies this
      ensures Reads(r, SkipFields(n, data, old(curpos)), curpos)
      decreases Left(data, curpos), 0, n + 1
    {
      for i := 0 to n
        invariant old(curpos) <= curpos
        invariant SkipFields(n, data, old(curpos)) == SkipFields(n - i, data, curpos)
      {
        r := PeekValue();
        if r == None { return; }
      }
      r := Some(());
    }

    method PeekItems(f: Field, n: int) returns (r: Option<()>)
      requires WellFormed(f)
      modifies this
      ensures Reads(r, SkipItems(f, n, data, old(curpos)), curpos)
      decreases Left(data, curpos), Depth(f), if n > 0 then n else 0
    {
      var left := n;
      while left > 0
        invariant old(curpos) <= curpos && (n > 0 ==> left <= n)
        invariant SkipItems(f, n, data, old(curpos)) == SkipItems(f, left, data, curpos)
      {
        r := PeekBody(f);
        if r == None { return; }
        left := left - 1;
      }
      r := Some(());
    }

    method PeekEntries(k: Field, v: Field, n: int) returns (r: Option<()>)
      requires WellFormed(k) && WellFormed(v)
      modifies this
      ensures Reads(r, SkipEntries(k, v, n, data, old(curpos)), curpos)
      decreases Left(data, curpos), Depth(k) + Depth(v), if n > 0 then n else 0
    {
      var left := n;
      while left > 0
        invariant old(curpos) <= curpos && (n > 0 ==> left <= n)
        invariant SkipEntries(k, v, n, data, old(curpos)) == SkipEntries(k, v, left, data, curpos)
      {
        r := PeekBody(k);
        if r == None { return; }
        r := PeekBody(v);
        if r == None { return; }
        left := left - 1;
      }
      r := Some(());
    }

    /** Decodes arguments through a list of pointers or into a struct; a panic is recovered into None. */
    method DecodeArguments(target: Target) returns (r: Option<seq<Value>>)
      requires curpos == 0
      modifies this
      ensures r == DecodeArgs(target, data)
    {
      match target {
        case Pointers(ts) =>
          if ts == [] {
            return Some([]);
          }
          var n := UnpackByte();
          if n == None {
            return None;
          }
          r := DecodeListInto(ts, n.value);
        case Struct(ts) =>
          var v := DecodeStructInto(TStruct(ts));
          if v == None || !v.value.VStruct? {
            return None;
          }
          r := Some(v.value.fields);
      }
    }

    method DecodeListInto(ts: seq<Type>, n: nat) returns (r: Option<seq<Value>>)
      modifies this
      ensures r == DecodeList(ts, n, data, old(curpos))
    {
      var vs := [];
      var i := 0;
      assert ts[0..] == ts;
      ghost var all := DecodeList(ts, n, data, curpos);
      assert all.Some? ==> vs + all.value == all.value;
      while i < n && i < |ts|
        invariant 0 <= i <= n && i <= |ts|
        invariant DecodeList(ts, n, data, old(curpos)) ==
          match DecodeList(ts[i..], n - i, data, curpos) case Some(rest) => Some(vs + rest) case None => None
        decreases n - i
      {
        assert ts[i..][1..] == ts[i + 1..];
        var v := DecodeInto(ts[i]);
        if v == None {
          return None;
        }
        ghost var rest := DecodeList(ts[i + 1..], n - i - 1, data, curpos);
        assert rest.Some? ==> vs + [v.value] + rest.value == vs + ([v.value] + rest.value);
        vs := vs + [v.value];
        i := i + 1;
      }
      assert vs + [] == vs;
      r := Some(vs);
    }
  }
}
