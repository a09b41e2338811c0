/** The packer of headers and length prefixes: one buffer and one cursor, for writing as for reading. */
module PackDatas {
  import opened Words
  import opened Varint
  import opened Wire
  import opened EncBuffers
  import opened DecBuffers
  import opened Skipping

  class PackData {
    var value: bytes
    var curPos: nat

    /** The bytes written so far end at the cursor. */
    ghost predicate Writing()
      reads this
    {
      curPos == |value|
    }

    constructor ()
      ensures value == [] && curPos == 0 && Writing()
    {
      value, curPos := [], 0;
    }

    method ResetBytes(val: bytes)
      modifies this
      ensures value == val && curPos == 0
    {
      value, curPos := val, 0;
    }

    // ----- writing

    method PackByte(b: byte)
      requires Writing()
      modifies this
      ensures Writing() && value == old(value) + [b]
    {
      value := value + [b];
      curPos := curPos + 1;
    }

    method PackUint64(val: uint64)
      requires Writing()
      modifies this
      ensures Writing() && value == old(value) + EncodeUint(val)
    {
      if val == 0 {
        PackByte(0);
        return;
      }
      var left: nat := val;
      ghost var whole := value + EncodeUint(val);
      while left > 0
        invariant Writing() && value + Groups(left) == whole
      {
        var ch := left % 128;
        ghost var before, rest := value, left;
        left := left / 128;
        if left > 0 {
          ch := ch + 128;
        }
        PackByte(ch);
        FirstGroup(before, rest, ch);
      }
    }

    method PackNum(val: int)
      requires Writing()
      modifies this
      ensures Writing() && value == old(value) + EncodeUint(Unsigned64(val))
    {
      PackUint64(Unsigned64(val));
    }

    method PackString(s: bytes)
      requires Writing()
      modifies this
      ensures Writing() && value == old(value) + EncodeString(s)
    {
      PackNum(|s|);
      if |s| > 0 {
        value := value + s;
        curPos := curPos + |s|;
      }
    }

    method Data() returns (s: bytes)
      requires curPos <= |value|
      ensures s == value[..curPos]
    {
      s := value[0..curPos];
    }

    /** What lies behind the cursor. */
    method SurData() returns (s: bytes)
      requires curPos <= |value|
      ensures s == value[curPos..]
    {
      s := value[curPos..];
    }

    // ----- reading

    method UnpackByte() returns (r: Option<byte>)
      modifies this
      ensures value == old(value) && Reads(r, DecodeByte(value, old(curPos)), curPos)
    {
      if curPos >= |value| {
        return None;
      }
      r := Some(value[curPos]);
      curPos := curPos + 1;
    }

    method UnpackUint64() returns (val: uint64)
      modifies this
      ensures value == old(value) && (val, curPos) == DecodeUint(value, old(curPos))
    {
      var exp: uint64 := 1;
      val := 0;
      ghost var start := curPos;
      if start <= |value| {
        NothingRead(value, start);
      }
      while curPos < |value|
        invariant value == old(value)
        invariant if start <= |value| then Accumulated(value, start, curPos, val, exp) else curPos == start
      {
        var ch := value[curPos];
        var sum: uint64 := (val + ch % 128 * exp % TWO_64) % TWO_64;
        AccumulateByte(value, start, curPos, val, exp, ch, sum);
        curPos := curPos + 1;
        val := sum;
        if ch < 128 {
          return;
        }
        exp := exp * 128 % TWO_64;
      }
      val := 0;
    }

    method UnpackString() returns (r: Option<bytes>)
      modifies this
      ensures value == old(value) && Reads(r, DecodeString(value, old(curPos)), curPos)
    {
      var u := UnpackUint64();
      var slen := Signed(u, TWO_64);
      if slen == 0 {
        return Some([]);
      }
      if slen < 0 || curPos + slen > |value| {
        return None;
      }
      r := Some(value[curPos..curPos + slen]);
      curPos := curPos + slen;
    }

    method ReadField() returns (r: Option<Field>)
      modifies this
      ensures value == old(value) && Reads(r, UnpackField(value, old(curPos)), curPos)
      ensures r.Some? ==> WellFormed(r.value) && curPos > old(curPos)
      decreases Left(value, curPos)
    {
      var base := UnpackByte();
      if base == None {
        return None;
      }
      if base.value == FT_ARRAY {
        var f := ReadField();
        if f == None { return None; }
        r := Some(Field(FT_ARRAY, [f.value]));
      } else if base.value == FT_MAP {
        var k := ReadField();
        if k == None { return None; }
        var v := ReadField();
        if v == None { return None; }
        r := Some(Field(FT_MAP, [k.value, v.value]));
      } else {
        r := Some(Field(base.value, []));
      }
    }
  }
}
