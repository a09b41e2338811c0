/**
 * The variable-length number format: 7-bit groups, least significant first, with the high bit set on
 * every byte but the last. It is the unsigned LEB128 form of section 7.6 of the DWARF version 5 standard.
 */
module Varint {
  import opened Words

  /** The bytes the packers append for `v`. */
  function EncodeUint(v: nat): (s: bytes)
    ensures |s| > 0
  {
    if v < 128 then [v] else [128 + v % 128] + EncodeUint(v / 128)
  }

  /** The number whose 7-bit groups are the low bits of `s`. */
  function GroupSum(s: bytes): nat {
    if s == [] then 0 else s[0] % 128 + 128 * GroupSum(s[1..])
  }

  /** The first position at or after `pos` whose byte has no continuation bit, or the end of the data. */
  function Terminator(data: bytes, pos: nat): (e: nat)
    requires pos <= |data|
    ensures pos <= e <= |data|
    ensures forall i :: pos <= i < e ==> data[i] >= 128
    ensures e < |data| ==> data[e] < 128
    decreases |data| - pos
  {
    if pos == |data| || data[pos] < 128 then pos else Terminator(data, pos + 1)
  }

  /** A number of three groups, the lowest first. */
  lemma UintExample()
    ensures EncodeUint(624485) == [0xE5, 0x8E, 0x26] && EncodeUint(0) == [0] && EncodeUint(127) == [127]
  {
    assert EncodeUint(4878) == [0x8E] + EncodeUint(38);
  }

  /** What the unpackers read: the group sum modulo 2^64, or 0 when no terminator is left; and where they stop. */
  function DecodeUint(data: bytes, pos: nat): (r: (uint64, nat))
    ensures pos <= |data| ==> pos <= r.1 <= |data|
    ensures pos < |data| ==> pos < r.1
  {
    if pos > |data| then (0, pos) else
      var e := Terminator(data, pos);
      if e == |data| then (0, e) else (GroupSum(data[pos..e + 1]) % TWO_64, e + 1)
  }

  /** One whole encoding: continuation bits on all bytes but the last. */
  predicate Terminated(s: bytes) {
    |s| > 0 && s[|s| - 1] < 128 && forall i :: 0 <= i < |s| - 1 ==> s[i] >= 128
  }

  // ----- decoding inverts encoding

  lemma {:induction false} EncodingShape(v: nat)
    ensures Terminated(EncodeUint(v)) && GroupSum(EncodeUint(v)) == v
  {
    if v < 128 {
      assert EncodeUint(v)[1..] == [];
    } else {
      EncodingShape(v / 128);
      assert EncodeUint(v)[1..] == EncodeUint(v / 128);
    }
  }

  lemma {:induction false} TerminatorIs(data: bytes, pos: nat, e: nat)
    requires pos <= e < |data| && data[e] < 128
    requires forall i :: pos <= i < e ==> data[i] >= 128
    ensures Terminator(data, pos) == e
    decreases e - pos
  {
    if pos < e {
      TerminatorIs(data, pos + 1, e);
    }
  }

  /** A whole encoding placed anywhere in the data decodes to its group sum, and decoding stops right after it. */
  lemma DecodeTerminated(data: bytes, pos: nat, end: nat, s: bytes)
    requires Terminated(s) && pos <= end <= |data| && data[pos..end] == s
    ensures DecodeUint(data, pos) == (GroupSum(s) % TWO_64, end)
  {
    var last := end - 1;
    forall i | pos <= i < end ensures data[i] == s[i - pos] {
      assert data[pos..end][i - pos] == data[i];
    }
    TerminatorIs(data, pos, last);
    assert Terminator(data, pos) + 1 == end;
  }

  /** The encoding of a number placed anywhere in the data is read back as that number. */
  lemma DecodeEncoded(data: bytes, pos: nat, end: nat, v: uint64)
    requires pos <= end <= |data| && data[pos..end] == EncodeUint(v)
    ensures DecodeUint(data, pos) == (v, end)
  {
    EncodingShape(v);
    DecodeTerminated(data, pos, end, EncodeUint(v));
    Unwrapped(v);
  }

  lemma Unwrapped(v: uint64)
    ensures v % TWO_64 == v
  {
  }

  /** Round trip: every 64-bit number is read back, whatever precedes and follows it. */
  lemma UintRoundTrip(before: bytes, v: uint64, rest: bytes)
    ensures DecodeUint(before + EncodeUint(v) + rest, |before|) == (v, |before + EncodeUint(v)|)
  {
    var data, pos, end := before + EncodeUint(v) + rest, |before|, |before + EncodeUint(v)|;
    assert data[pos..end] == EncodeUint(v);
    DecodeEncoded(data, pos, end, v);
  }

  // ----- the encoding is the shortest, and below 2^63 the only shortest one

  function Pow128(n: nat): nat {
    if n == 0 then 1 else 128 * Pow128(n - 1)
  }

  lemma Powers()
    ensures Pow128(9) == TWO_63
    ensures Pow128(10) == 64 * TWO_64
  {
    assert Pow128(3) == 128 * 128 * 128;
    assert Pow128(6) == Pow128(3) * Pow128(3) by {
      assert Pow128(6) == 128 * 128 * 128 * Pow128(3);
    }
    assert Pow128(9) == 128 * 128 * 128 * Pow128(6);
    assert Pow128(10) == 128 * Pow128(9);
  }

  lemma {:induction false} PowersGrow(m: nat, n: nat)
    requires m <= n
    ensures 1 <= Pow128(m) <= Pow128(n)
    decreases n
  {
    if n > 0 {
      if m == n { PowersGrow(n - 1, n - 1); } else { PowersGrow(m, n - 1); }
    }
  }

  lemma {:induction false} GroupSumBound(s: bytes)
    ensures GroupSum(s) < Pow128(|s|)
  {
    if s != [] {
      GroupSumBound(s[1..]);
    }
  }

  lemma {:induction false} EncodingLength(v: nat)
    ensures v < Pow128(|EncodeUint(v)|)
    ensures v > 0 ==> Pow128(|EncodeUint(v)| - 1) <= v
  {
    EncodingShape(v);
    GroupSumBound(EncodeUint(v));
    if v >= 128 {
      EncodingLength(v / 128);
    }
  }

  /** A 64-bit number never takes more than ten bytes. */
  lemma AtMostTenBytes(v: uint64)
    ensures |EncodeUint(v)| <= 10
    ensures |EncodeUint(v)| == 10 <==> v >= TWO_63
  {
    Powers();
    EncodingLength(v);
    if |EncodeUint(v)| > 10 {
      PowersGrow(10, |EncodeUint(v)| - 1);
    }
    if |EncodeUint(v)| < 10 {
      PowersGrow(|EncodeUint(v)|, 9);
    }
  }

  /** Anything shorter than the encoding of `v` reads as a smaller number. */
  lemma ShorterReadsLess(s: bytes, v: uint64)
    requires 0 < |s| < |EncodeUint(v)|
    ensures GroupSum(s) < v
  {
    var k, m := |s|, |EncodeUint(v)| - 1;
    AtMostTenBytes(v);
    GroupSumBound(s);
    EncodingLength(v);
    PowersGrow(k, m);
  }

  /** No whole encoding that reads as `v` is shorter than the encoding of `v`. */
  lemma Shortest(s: bytes, v: uint64)
    requires Terminated(s) && GroupSum(s) % TWO_64 == v
    ensures |EncodeUint(v)| <= |s|
  {
    if |s| < |EncodeUint(v)| {
      ShorterReadsLess(s, v);
    }
  }

  /** Group sums determine the bytes of encodings of one length. */
  lemma {:induction false} SameSum(s: bytes, r: bytes)
    requires Terminated(s) && Terminated(r) && |s| == |r| && GroupSum(s) == GroupSum(r)
    ensures s == r
  {
    var a, x, b, y := s[0], s[1..], r[0], r[1..];
    assert s == [a] + x && r == [b] + y;
    SameGroups(a, GroupSum(x), b, GroupSum(y));
    if |s| > 1 {
      SameSum(x, y);
    }
  }

  lemma SameGroups(a: byte, x: nat, b: byte, y: nat)
    requires a % 128 + 128 * x == b % 128 + 128 * y
    ensures a % 128 == b % 128 && x == y
  {
  }

  /** Up to nine bytes nothing wraps around. */
  lemma NothingWraps(s: bytes)
    requires |s| <= 9
    ensures GroupSum(s) < TWO_63
  {
    Powers();
    GroupSumBound(s);
    PowersGrow(|s|, 9);
  }

  lemma OnlyReading(s: bytes, v: uint64)
    requires v < TWO_63 && Terminated(s) && |s| == |EncodeUint(v)| && GroupSum(s) % TWO_64 == v
    ensures s == EncodeUint(v)
  {
    var r := EncodeUint(v);
    AtMostTenBytes(v);
    NothingWraps(s);
    EncodingShape(v);
    Unwrapped(GroupSum(s));
    SameSum(s, r);
  }

  /** The other ten-byte reading of a number from 2^63 on: a bit beyond the 64th is set and lost. */
  lemma OtherReading(v: uint64, w: nat)
    requires v >= TWO_63 && w == v + TWO_64
    ensures Terminated(EncodeUint(w)) && |EncodeUint(w)| == |EncodeUint(v)| == 10
    ensures GroupSum(EncodeUint(w)) % TWO_64 == v && EncodeUint(w) != EncodeUint(v)
  {
    EncodingShape(v);
    EncodingShape(w);
    TenBytes(v);
    TenBytes(w);
    BeyondTop(v, w);
  }

  lemma BeyondTop(v: uint64, w: nat)
    requires w == v + TWO_64
    ensures w % TWO_64 == v
  {
  }

  lemma TenBytes(w: nat)
    requires TWO_63 <= w < 2 * TWO_64
    ensures |EncodeUint(w)| == 10
  {
    Powers();
    EncodingLength(w);
    var n := |EncodeUint(w)|;
    if n > 10 { PowersGrow(10, n - 1); }
    if n < 10 { PowersGrow(n, 9); }
  }

  /** The encoding is the only one of its length that reads as `v` exactly when `v` is below 2^63. */
  lemma UniqueShortest(v: uint64)
    ensures (forall s: bytes :: Terminated(s) && |s| == |EncodeUint(v)| && GroupSum(s) % TWO_64 == v ==> s == EncodeUint(v))
       <==> v < TWO_63
  {
    if v < TWO_63 {
      forall s: bytes | Terminated(s) && |s| == |EncodeUint(v)| && GroupSum(s) % TWO_64 == v
        ensures s == EncodeUint(v)
      {
        OnlyReading(s, v);
      }
    } else {
      OtherReading(v, v + TWO_64);
    }
  }

  // ----- signed numbers travel as sign-extended 64-bit words

  lemma SignedRoundTrip(x: int)
    ensures -TWO_63 <= x < TWO_63 ==> Signed(Unsigned64(x), TWO_64) == x
    ensures -0x8000_0000 <= x < 0x8000_0000 ==> Signed(Unsigned64(x), TWO_32) == x
    ensures -0x8000 <= x < 0x8000 ==> Signed(Unsigned64(x), 0x1_0000) == x
  {
    if -0x8000_0000 <= x < 0x8000_0000 {
      SignedLow32(x);
    }
    if -0x8000 <= x < 0x8000 {
      SignedLow16(x);
    }
  }

  lemma SignedLow32(x: int)
    requires -0x8000_0000 <= x < 0x8000_0000
    ensures Signed(Unsigned64(x), TWO_32) == x
  {
  }

  lemma SignedLow16(x: int)
    requires -0x8000 <= x < 0x8000
    ensures Signed(Unsigned64(x), 0x1_0000) == x
  {
  }

  // ----- the accumulating loop of the unpackers

  lemma {:induction false} GroupSumSnoc(s: bytes, b: byte)
    ensures GroupSum(s + [b]) == GroupSum(s) + b % 128 * Pow128(|s|)
  {
    if s == [] {
      assert ([b])[1..] == [];
    } else {
      GroupSumSnoc(s[1..], b);
      assert (s + [b])[1..] == s[1..] + [b];
      Regroup(b % 128, Pow128(|s| - 1));
    }
  }

  lemma Regroup(a: int, p: int)
    ensures 128 * (a * p) == a * (128 * p)
  {
  }

  lemma WrappedProduct(c: int, e: int)
    ensures c * (e % TWO_64) % TWO_64 == c * e % TWO_64
  {
    var q, r := e / TWO_64, e % TWO_64;
    Spread(c, q, r);
    WholeWraps(c * q, c * r);
  }

  lemma WholeWraps(k: int, x: int)
    ensures (TWO_64 * k + x) % TWO_64 == x % TWO_64
  {
  }

  lemma Spread(c: int, q: int, r: int)
    ensures c * (TWO_64 * q + r) == TWO_64 * (c * q) + c * r
  {
  }

  /** One step of the wrapping accumulation is one step of the exact sum, taken modulo 2^64. */
  lemma AccumulateStep(s: bytes, b: byte, val: uint64, exp: uint64)
    requires val == GroupSum(s) % TWO_64 && exp == Pow128(|s|) % TWO_64
    ensures (val + b % 128 * exp % TWO_64) % TWO_64 == GroupSum(s + [b]) % TWO_64
    ensures exp * 128 % TWO_64 == Pow128(|s| + 1) % TWO_64
  {
    GroupSumSnoc(s, b);
    var c, p := b % 128, Pow128(|s|);
    WrappedProduct(c, p);
    WrappedProduct(128, p);
    WrappedSum(GroupSum(s), c * p);
  }

  /** Where the accumulating loop stands: it has read whole groups from `start` on and met no terminator. */
  ghost predicate Accumulated(data: bytes, start: nat, pos: nat, val: uint64, exp: uint64) {
    && start <= pos <= |data| && Terminator(data, start) == Terminator(data, pos)
    && val == GroupSum(data[start..pos]) % TWO_64 && exp == Pow128(pos - start) % TWO_64
  }

  lemma NothingRead(data: bytes, start: nat)
    requires start <= |data|
    ensures Accumulated(data, start, start, 0, 1)
  {
  }

  /** One byte more: a terminator ends the number, any other byte is one group more. */
  lemma AccumulateByte(data: bytes, start: nat, pos: nat, val: uint64, exp: uint64, ch: byte, sum: uint64)
    requires Accumulated(data, start, pos, val, exp) && pos < |data| && ch == data[pos]
    requires sum == (val + ch % 128 * exp % TWO_64) % TWO_64
    ensures ch < 128 ==> DecodeUint(data, start) == (sum, pos + 1)
    ensures ch >= 128 ==> Accumulated(data, start, pos + 1, sum, exp * 128 % TWO_64)
  {
    var seen := data[start..pos];
    assert data[start..pos + 1] == seen + [ch];
    AccumulateStep(seen, ch, val, exp);
  }

  lemma WrappedSum(x: int, y: int)
    ensures (x % TWO_64 + y % TWO_64) % TWO_64 == (x + y) % TWO_64
  {
  }
}
