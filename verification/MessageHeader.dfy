/** The header object: packing walks its fields stepwise, unpacking assigns them as they are read. */
module MessageHeaders {
  import opened Words
  import opened Varint
  import opened Wire
  import opened Strconv
  import opened EncBuffers
  import opened DecBuffers
  import opened Headers
  import opened PackDatas

  /** Map entries already visited by an iteration that still has to visit `left`. */
  ghost predicate Visited(ps: seq<Pair>, m: map<bytes, bytes>, left: set<bytes>) {
    && left <= m.Keys && |ps| + |left| == |m|
    && (forall i, j :: 0 <= i < j < |ps| ==> ps[i].key != ps[j].key)
    && (forall i :: 0 <= i < |ps| ==> ps[i].key in m && m[ps[i].key] == ps[i].value && ps[i].key !in left)
  }

  lemma VisitOne(ps: seq<Pair>, m: map<bytes, bytes>, left: set<bytes>, k: bytes)
    requires Visited(ps, m, left) && k in left
    ensures Visited(ps + [Pair(k, m[k])], m, left - {k})
  {
    assert |left - {k}| == |left| - 1;
  }

  /** The text a packed header is made of, read from the left. */
  lemma Layout(h: HeaderData, ps: seq<Pair>)
    ensures PackedHeader(h, ps) ==
              [] + [FieldNum(h)] + TextField(h.path) + TextField(h.name) + Suffix(h, ps)
  {
    FromTheLeft([FieldNum(h)], TextField(h.path), TextField(h.name), Suffix(h, ps));
  }

  lemma FromTheLeft(a: bytes, b: bytes, c: bytes, d: bytes)
    ensures [] + a + b + c + d == a + (b + (c + d))
  {
  }

  lemma SuffixLayout(h: HeaderData, ps: seq<Pair>)
    ensures FieldNum(h) == 2 ==> Suffix(h, ps) == []
    ensures FieldNum(h) == 3 ==> Suffix(h, ps) == [FT_CHAR] + [h.callType]
    ensures FieldNum(h) == 4 ==> Suffix(h, ps) == [FT_CHAR] + [h.callType] + [FT_NUMBER] + EncodeUint(h.seqId)
    ensures FieldNum(h) == 5 ==>
              Suffix(h, ps) == [FT_CHAR] + [h.callType] + [FT_NUMBER] + EncodeUint(h.seqId) + MetadataField(ps)
  {
    if FieldNum(h) == 3 {
      InARow(h.callType, [], [], []);
    } else if FieldNum(h) == 4 {
      InARow(h.callType, [FT_NUMBER], EncodeUint(h.seqId), []);
    } else if FieldNum(h) == 5 {
      InARow(h.callType, [FT_NUMBER], EncodeUint(h.seqId), MetadataField(ps));
    }
  }

  lemma InARow(c: byte, tag: bytes, number: bytes, last: bytes)
    ensures [FT_CHAR, c] + ((tag + number) + last) == [FT_CHAR] + [c] + tag + number + last
    ensures [FT_CHAR] + [c] + tag + number + [] == [FT_CHAR] + [c] + tag + number
    ensures [FT_CHAR, c] + [] == [FT_CHAR] + [c]
  {
  }

  lemma OneMorePair(before: bytes, ps: seq<Pair>, p: Pair)
    ensures before + EncodePairs(ps) + EncodeString(p.key) + EncodeString(p.value) == before + EncodePairs(ps + [p])
  {
    assert (ps + [p])[..|ps|] == ps;
    Reassociate(before, EncodePairs(ps), EncodeString(p.key), EncodeString(p.value));
    Reassociate(before, EncodePairs(ps), EncodePair(p), []);
  }

  lemma MetadataLayout(before: bytes, count: bytes, pairs: bytes)
    ensures before + [FT_MAP] + [FT_STRING] + [FT_STRING] + count + pairs
         == before + ([FT_MAP, FT_STRING, FT_STRING] + (count + pairs))
  {
  }

  lemma Reassociated(before: bytes, h: HeaderData, front: bytes, last: bytes)
    requires front == before + [FT_CHAR] + [h.callType] + [FT_NUMBER] + EncodeUint(h.seqId)
    ensures front + last == before + ([FT_CHAR] + [h.callType] + [FT_NUMBER] + EncodeUint(h.seqId) + last)
  {
  }

  class Header {
    var servicePath: bytes
    var serviceMethod: bytes
    var callType: byte
    var seqId: uint64
    var metadata: map<bytes, bytes>

    ghost function Data(): HeaderData
      reads this
    {
      HeaderData(servicePath, serviceMethod, callType, seqId, metadata)
    }

    constructor ()
      ensures Data() == FRESH
    {
      servicePath, serviceMethod, callType, seqId, metadata := [], [], 0, 0, map[];
    }

    /** Elides trailing fields one after the other, as long as each holds its default. */
    method CountFields() returns (fieldnum: byte)
      ensures fieldnum == FieldNum(Data()) && 2 <= fieldnum <= 5
      ensures fieldnum == 5 <==> metadata != map[]
      ensures fieldnum <= 3 <==> metadata == map[] && seqId == 0
      ensures fieldnum == 2 <==> metadata == map[] && seqId == 0 && callType == NOTIFY
    {
      fieldnum := 5;
      if |metadata| == 0 {
        fieldnum := fieldnum - 1;
        if seqId == 0 {
          fieldnum := fieldnum - 1;
          if callType == NOTIFY {
            fieldnum := fieldnum - 1;
          }
        }
      }
    }

    /** The packed header, with the metadata in the order in which the map happened to be walked. */
    method PackHeader() returns (s: bytes)
      ensures exists ps: seq<Pair> :: Lists(ps, metadata) && s == PackedHeader(Data(), ps)
      ensures |s| > 0 && 2 <= s[0] <= 5
      ensures s[0] == 5 <==> metadata != map[]
      ensures s[0] <= 3 <==> metadata == map[] && seqId == 0
      ensures s[0] == 2 <==> metadata == map[] && seqId == 0 && callType == NOTIFY
    {
      var packer := new PackData();
      var fieldnum := CountFields();
      packer.PackByte(fieldnum);
      PackText(packer, servicePath);
      PackText(packer, serviceMethod);
      ghost var ps := PackSuffix(packer, fieldnum);
      Layout(Data(), ps);
      s := packer.Data();
      assert Lists(ps, metadata) && s == PackedHeader(Data(), ps);
    }

    static method PackText(packer: PackData, s: bytes)
      requires packer.Writing()
      modifies packer
      ensures packer.Writing() && packer.value == old(packer.value) + TextField(s)
    {
      packer.PackByte(FT_STRING);
      packer.PackString(s);
    }

    method PackSuffix(packer: PackData, fieldnum: byte) returns (ghost ps: seq<Pair>)
      requires packer.Writing() && fieldnum == FieldNum(Data())
      modifies packer
      ensures packer.Writing() && Lists(ps, metadata)
      ensures packer.value == old(packer.value) + Suffix(Data(), ps)
    {
      ps := [];
      ghost var before := packer.value;
      if fieldnum == 2 {
        SuffixLayout(Data(), ps);
        return;
      }
      packer.PackByte(FT_CHAR);
      packer.PackByte(callType);
      if fieldnum == 3 {
        SuffixLayout(Data(), ps);
        return;
      }
      packer.PackByte(FT_NUMBER);
      packer.PackUint64(seqId);
      if fieldnum == 4 {
        SuffixLayout(Data(), ps);
        return;
      }
      ghost var front := packer.value;
      ps := PackMetadata(packer);
      SuffixLayout(Data(), ps);
      Reassociated(before, Data(), front, MetadataField(ps));
    }

    method PackMetadata(packer: PackData) returns (ghost ps: seq<Pair>)
      requires packer.Writing()
      modifies packer
      ensures packer.Writing() && Lists(ps, metadata)
      ensures packer.value == old(packer.value) + MetadataField(ps)
    {
      packer.PackByte(FT_MAP);
      packer.PackByte(FT_STRING);
      packer.PackByte(FT_STRING);
      packer.PackUint64(Unsigned64(|metadata|));
      ps := PackPairs(packer);
      MetadataLayout(old(packer.value), EncodeUint(Unsigned64(|ps|)), EncodePairs(ps));
    }

    method PackPairs(packer: PackData) returns (ghost ps: seq<Pair>)
      requires packer.Writing()
      modifies packer
      ensures packer.Writing() && Lists(ps, metadata)
      ensures packer.value == old(packer.value) + EncodePairs(ps)
    {
      var left := metadata.Keys;
      ps := [];
      while left != {}
        invariant Visited(ps, metadata, left)
        invariant packer.Writing() && packer.value == old(packer.value) + EncodePairs(ps)
        decreases |left|
      {
        var k :| k in left;
        VisitOne(ps, metadata, left, k);
        ghost var p := Pair(k, metadata[k]);
        OneMorePair(old(packer.value), ps, p);
        packer.PackString(k);
        packer.PackString(metadata[k]);
        left := left - {k};
        ps := ps + [p];
      }
    }

    /** False where the source panics. */
    method UnpackData(packer: PackData) returns (ok: bool)
      modifies this, packer
      ensures packer.value == old(packer.value)
      ensures var r := UnpackHeader(old(Data()), packer.value, old(packer.curPos));
        && ok == r.Ok? && (ok ==> Data() == r.value && packer.curPos == r.pos)
    {
      var fieldnum := packer.UnpackByte();
      if fieldnum == None || fieldnum.value < 1 {
        return false;
      }
      var path := UnpackText(packer);
      if path == None {
        return false;
      }
      servicePath := path.value;
      if fieldnum.value < 2 {
        return true;
      }
      var name := UnpackText(packer);
      if name == None {
        return false;
      }
      serviceMethod := name.value;
      ok := UnpackTail(fieldnum.value, packer);
    }

    method UnpackTail(fieldnum: byte, packer: PackData) returns (ok: bool)
      modifies this, packer
      ensures packer.value == old(packer.value)
      ensures var r := UnpackSuffix(fieldnum, old(Data()), packer.value, old(packer.curPos));
        && ok == r.Ok? && (ok ==> Data() == r.value && packer.curPos == r.pos)
    {
      if fieldnum < 3 {
        return true;
      }
      var tag := packer.UnpackByte();
      if tag == None || tag.value != FT_CHAR {
        return false;
      }
      var c := packer.UnpackByte();
      if c == None {
        return false;
      }
      callType := c.value;
      if fieldnum < 4 {
        return true;
      }
      var n := UnpackNumber(packer);
      if n == None {
        return false;
      }
      seqId := n.value;
      if fieldnum < 5 {
        return true;
      }
      ok := UnpackMetadata(packer);
    }

    method UnpackMetadata(packer: PackData) returns (ok: bool)
      modifies this`metadata, packer
      ensures packer.value == old(packer.value)
      ensures var r := ReadMetadata(old(metadata), packer.value, old(packer.curPos));
        && ok == r.Ok? && (ok ==> metadata == r.value && packer.curPos == r.pos)
    {
      var f := packer.ReadField();
      if f == None || !IsTextMap(f.value) {
        return false;
      }
      var u := packer.UnpackUint64();
      ok := UnpackPairs(packer, u % TWO_32);
    }

    /** Adds `rnum` pairs to the metadata. */
    method UnpackPairs(packer: PackData, rnum: nat) returns (ok: bool)
      modifies this`metadata, packer
      ensures packer.value == old(packer.value)
      ensures var r := ReadPairs(rnum, old(metadata), packer.value, old(packer.curPos));
        && ok == r.Ok? && (ok ==> metadata == r.value && packer.curPos == r.pos)
    {
      ghost var data, whole := packer.value, ReadPairs(rnum, metadata, packer.value, packer.curPos);
      var left := rnum;
      while left > 0
        invariant packer.value == data && ReadPairs(left, metadata, data, packer.curPos) == whole
      {
        left := left - 1;
        ok := AddPair(packer, left);
        if !ok {
          return;
        }
      }
      ok := true;
    }

    /** One pair into the metadata; `left` more are to follow. */
    method AddPair(packer: PackData, ghost left: nat) returns (ok: bool)
      modifies this`metadata, packer
      ensures packer.value == old(packer.value)
      ensures ReadPairs(left + 1, old(metadata), packer.value, old(packer.curPos)) ==
              if ok then ReadPairs(left, metadata, packer.value, packer.curPos) else Panic
    {
      ghost var r := ReadPair(packer.value, packer.curPos);
      NextPair(left, metadata, packer.value, packer.curPos, r);
      var p := UnpackPair(packer);
      if p == None {
        return false;
      }
      metadata := metadata[p.value.key := p.value.value];
      ok := true;
    }

    static method UnpackPair(packer: PackData) returns (r: Option<Pair>)
      modifies packer
      ensures packer.value == old(packer.value)
      ensures Reads(r, ReadPair(packer.value, old(packer.curPos)), packer.curPos)
    {
      var key := packer.UnpackString();
      if key == None {
        return None;
      }
      var val := packer.UnpackString();
      if val == None {
        return None;
      }
      r := Some(Pair(key.value, val.value));
    }

    static method UnpackText(packer: PackData) returns (r: Option<bytes>)
      modifies packer
      ensures packer.value == old(packer.value)
      ensures Reads(r, ReadText(packer.value, old(packer.curPos)), packer.curPos)
    {
      var tag := packer.UnpackByte();
      if tag == None {
        return None;
      }
      if tag.value == FT_STRING {
        r := packer.UnpackString();
      } else if tag.value == FT_NUMBER {
        var u := packer.UnpackUint64();
        r := Some(Itoa(Signed(u, TWO_64)));
      } else {
        r := None;
      }
    }

    static method UnpackNumber(packer: PackData) returns (r: Option<uint64>)
      modifies packer
      ensures packer.value == old(packer.value)
      ensures Reads(r, ReadNumber(packer.value, old(packer.curPos)), packer.curPos)
    {
      var tag := packer.UnpackByte();
      if tag == None {
        return None;
      }
      if tag.value == FT_NUMBER {
        var u := packer.UnpackUint64();
        r := Some(u);
      } else if tag.value == FT_STRING {
        var s := packer.UnpackString();
        if s == None {
          return None;
        }
        r := Some(ParseUint(s.value));
      } else {
        r := None;
      }
    }
  }
}
