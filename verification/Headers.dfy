/** The message header: five fields of which a default suffix is left out on the wire. */
module Headers {
  import opened Words
  import opened Varint
  import opened Wire
  import opened Strconv

  const NOTIFY: byte := 2

  /** The header fields that travel; compression, serialization and status never do. */
  datatype HeaderData = HeaderData(
    path: bytes, name: bytes, callType: byte, seqId: uint64, metadata: map<bytes, bytes>)

  /** A header nothing has been read into yet. */
  const FRESH := HeaderData([], [], 0, 0, map[])

  datatype Pair = Pair(key: bytes, value: bytes)

  /** The pairs are one iteration over the map. */
  ghost predicate Lists(ps: seq<Pair>, m: map<bytes, bytes>) {
    && |ps| == |m|
    && (forall i, j :: 0 <= i < j < |ps| ==> ps[i].key != ps[j].key)
    && (forall i :: 0 <= i < |ps| ==> ps[i].key in m && m[ps[i].key] == ps[i].value)
  }

  function PairMap(ps: seq<Pair>): map<bytes, bytes> {
    if ps == [] then map[] else PairMap(ps[..|ps| - 1])[ps[|ps| - 1].key := ps[|ps| - 1].value]
  }

  // ----- writing

  /** How many fields are written: trailing empty metadata, zero sequence number and Notify are elided, in this order. */
  function FieldNum(h: HeaderData): byte {
    if h.metadata != map[] then 5
    else if h.seqId != 0 then 4
    else if h.callType != NOTIFY then 3
    else 2
  }

  function EncodePair(p: Pair): bytes {
    EncodeString(p.key) + EncodeString(p.value)
  }

  function EncodePairs(ps: seq<Pair>): bytes {
    if ps == [] then [] else EncodePairs(ps[..|ps| - 1]) + EncodePair(ps[|ps| - 1])
  }

  function MetadataField(ps: seq<Pair>): bytes {
    [FT_MAP, FT_STRING, FT_STRING] + (EncodeUint(Unsigned64(|ps|)) + EncodePairs(ps))
  }

  /** The fields after the first two. */
  function Suffix(h: HeaderData, ps: seq<Pair>): bytes {
    if FieldNum(h) == 2 then [] else
      [FT_CHAR, h.callType] +
      if FieldNum(h) == 3 then [] else
        ([FT_NUMBER] + EncodeUint(h.seqId)) +
        if FieldNum(h) == 4 then [] else MetadataField(ps)
  }

  function TextField(s: bytes): bytes {
    [FT_STRING] + EncodeString(s)
  }

  function PackedHeader(h: HeaderData, ps: seq<Pair>): bytes {
    [FieldNum(h)] + (TextField(h.path) + (TextField(h.name) + Suffix(h, ps)))
  }

  // ----- reading

  /** A text field; a number is taken as its decimal text. */
  function ReadText(data: bytes, pos: nat): Parsed<bytes> {
    var (base, p) :- DecodeByte(data, pos);
    if base == FT_STRING then DecodeString(data, p)
    else if base == FT_NUMBER then
      var (u, q) := DecodeUint(data, p);
      Ok(Itoa(Signed(u, TWO_64)), q)
    else Panic
  }

  /** A number field; a text is parsed. */
  function ReadNumber(data: bytes, pos: nat): Parsed<uint64> {
    var (base, p) :- DecodeByte(data, pos);
    if base == FT_NUMBER then
      var (u, q) := DecodeUint(data, p);
      Ok(u, q)
    else if base == FT_STRING then
      var (s, q) :- DecodeString(data, p);
      Ok(ParseUint(s), q)
    else Panic
  }

  function ReadCallType(data: bytes, pos: nat): Parsed<byte> {
    var (base, p) :- DecodeByte(data, pos);
    if base == FT_CHAR then DecodeByte(data, p) else Panic
  }

  function ReadPair(data: bytes, pos: nat): Parsed<Pair> {
    var (k, p) :- DecodeString(data, pos);
    var (v, q) :- DecodeString(data, p);
    Ok(Pair(k, v), q)
  }

  function ReadPairs(n: nat, m: map<bytes, bytes>, data: bytes, pos: nat): Parsed<map<bytes, bytes>> {
    if n == 0 then Ok(m, pos) else
      var (p, q) :- ReadPair(data, pos);
      ReadPairs(n - 1, m[p.key := p.value], data, q)
  }

  predicate IsTextMap(f: Field) {
    f.base == FT_MAP && |f.sub| == 2 && f.sub[0].base == FT_STRING && f.sub[1].base == FT_STRING
  }

  /** Metadata is merged into what the header already holds; the count is a 32-bit number. */
  function ReadMetadata(m: map<bytes, bytes>, data: bytes, pos: nat): Parsed<map<bytes, bytes>> {
    var (f, p) :- UnpackField(data, pos);
    if !IsTextMap(f) then Panic else
      var (u, q) := DecodeUint(data, p);
      ReadPairs(u % TWO_32, m, data, q)
  }

  /** Reads as many of the five fields as the header announces and leaves the others as they are. */
  function UnpackHeader(h: HeaderData, data: bytes, pos: nat): Parsed<HeaderData> {
    var (n, p0) :- DecodeByte(data, pos);
    if n < 1 then Panic else
      var (path, p1) :- ReadText(data, p0);
      if n < 2 then Ok(h.(path := path), p1) else
        var (name, p2) :- ReadText(data, p1);
        UnpackSuffix(n, h.(path := path, name := name), data, p2)
  }

  function UnpackSuffix(n: byte, h: HeaderData, data: bytes, pos: nat): Parsed<HeaderData> {
    if n < 3 then Ok(h, pos) else
      var (callType, p3) :- ReadCallType(data, pos);
      if n < 4 then Ok(h.(callType := callType), p3) else
        var (seqId, p4) :- ReadNumber(data, p3);
        if n < 5 then Ok(h.(callType := callType, seqId := seqId), p4) else
          var (metadata, p5) :- ReadMetadata(h.metadata, data, p4);
          Ok(h.(callType := callType, seqId := seqId, metadata := metadata), p5)
  }

  /** The leading count is the smallest that leaves out nothing but defaults. */
  lemma LeastCount(h: HeaderData, ps: seq<Pair>)
    ensures var n := PackedHeader(h, ps)[0];
      && 2 <= n <= 5
      && (n < 5 <==> h.metadata == map[])
      && (n < 4 <==> h.metadata == map[] && h.seqId == 0)
      && (n < 3 <==> h.metadata == map[] && h.seqId == 0 && h.callType == 2)
  {
  }

  // ----- round trip

  /** Sizes a Go program can hold and the wire can count. */
  ghost predicate Sized(h: HeaderData) {
    && |h.path| < TWO_63 && |h.name| < TWO_63 && |h.metadata| < TWO_32
    && forall k :: k in h.metadata ==> |k| < TWO_63 && |h.metadata[k]| < TWO_63
  }

  lemma TextAt(data: bytes, pos: nat, end: nat, s: bytes)
    requires |s| < TWO_63 && Spans(data, pos, end, TextField(s))
    ensures ReadText(data, pos) == Ok(s, end)
  {
    var mid := Split(data, pos, end, [FT_STRING], EncodeString(s));
    ByteAt(data, pos, mid, FT_STRING);
    StringAt(data, mid, end, s);
  }

  lemma NumberAt(data: bytes, pos: nat, end: nat, v: uint64)
    requires Spans(data, pos, end, [FT_NUMBER] + EncodeUint(v))
    ensures ReadNumber(data, pos) == Ok(v, end)
  {
    var mid := Split(data, pos, end, [FT_NUMBER], EncodeUint(v));
    ByteAt(data, pos, mid, FT_NUMBER);
    UintAt(data, mid, end, v);
  }

  lemma CallTypeAt(data: bytes, pos: nat, end: nat, c: byte)
    requires Spans(data, pos, end, [FT_CHAR, c])
    ensures ReadCallType(data, pos) == Ok(c, end)
  {
    assert [FT_CHAR, c] == [FT_CHAR] + [c];
    var mid := Split(data, pos, end, [FT_CHAR], [c]);
    ByteAt(data, pos, mid, FT_CHAR);
    ByteAt(data, mid, end, c);
  }

  lemma PairAt(data: bytes, pos: nat, end: nat, p: Pair)
    requires |p.key| < TWO_63 && |p.value| < TWO_63 && Spans(data, pos, end, EncodePair(p))
    ensures ReadPair(data, pos) == Ok(p, end)
  {
    var mid := Split(data, pos, end, EncodeString(p.key), EncodeString(p.value));
    StringAt(data, pos, mid, p.key);
    StringAt(data, mid, end, p.value);
  }

  /** One pair, and then the others; nothing is read where the first pair is not. */
  lemma NextPair(n: nat, m: map<bytes, bytes>, data: bytes, pos: nat, r: Parsed<Pair>)
    requires r == ReadPair(data, pos)
    ensures ReadPairs(n + 1, m, data, pos) ==
            match r case Ok(p, q) => ReadPairs(n, m[p.key := p.value], data, q) case Panic => Panic
  {
  }

  /** Reading one more pair after reading some. */
  lemma {:induction false} ReadPairsSnoc(n: nat, m: map<bytes, bytes>, data: bytes, pos: nat, mid: nat, r: map<bytes, bytes>,
                                         p: Pair, end: nat)
    requires ReadPairs(n, m, data, pos) == Ok(r, mid) && ReadPair(data, mid) == Ok(p, end)
    ensures ReadPairs(n + 1, m, data, pos) == Ok(r[p.key := p.value], end)
  {
    var first := ReadPair(data, pos);
    NextPair(n, m, data, pos, first);
    if n > 0 {
      var l, f := n - 1, first.value;
      NextPair(l, m, data, pos, first);
      ReadPairsSnoc(l, m[f.key := f.value], data, first.pos, mid, r, p, end);
    }
  }

  lemma {:induction false} PairsAt(ps: seq<Pair>, m: map<bytes, bytes>, data: bytes, pos: nat, end: nat)
    requires forall i :: 0 <= i < |ps| ==> |ps[i].key| < TWO_63 && |ps[i].value| < TWO_63
    requires Spans(data, pos, end, EncodePairs(ps))
    ensures ReadPairs(|ps|, m, data, pos) == Ok(m + PairMap(ps), end)
  {
    if ps != [] {
      var n := |ps| - 1;
      var front, last := ps[..n], ps[n];
      var mid := Split(data, pos, end, EncodePairs(front), EncodePair(last));
      PairsAt(front, m, data, pos, mid);
      PairAt(data, mid, end, last);
      ReadPairsSnoc(n, m, data, pos, mid, m + PairMap(front), last, end);
      OneMorePut(m, ps, n, last);
    } else {
      assert m + map[] == m;
    }
  }

  lemma OneMorePut(m: map<bytes, bytes>, ps: seq<Pair>, n: nat, last: Pair)
    requires |ps| == n + 1 && last == ps[n]
    ensures (m + PairMap(ps[..n]))[last.key := last.value] == m + PairMap(ps)
  {
    OverThenPut(m, PairMap(ps[..n]), last.key, last.value);
  }

  lemma OverThenPut(m: map<bytes, bytes>, over: map<bytes, bytes>, k: bytes, v: bytes)
    ensures (m + over)[k := v] == m + over[k := v]
  {
  }

  lemma LastListed(ps: seq<Pair>, m: map<bytes, bytes>, n: nat, last: Pair)
    requires Lists(ps, m) && |ps| == n + 1 && last == ps[n]
    ensures last.key in m && m[last.key] == last.value && Lists(ps[..n], m - {last.key})
  {
    var less := m - {last.key};
    assert less.Keys == m.Keys - {last.key};
    assert |less| == |less.Keys| && |m| == |m.Keys|;
    var front := ps[..n];
    forall i | 0 <= i < n ensures front[i].key in less && less[front[i].key] == front[i].value {
      assert front[i] == ps[i];
    }
  }

  /** Every iteration over a map rebuilds it. */
  lemma {:induction false} ListsRebuild(ps: seq<Pair>, m: map<bytes, bytes>)
    requires Lists(ps, m)
    ensures PairMap(ps) == m
  {
    if ps != [] {
      var n := |ps| - 1;
      LastListed(ps, m, n, ps[n]);
      ListsRebuild(ps[..n], m - {ps[n].key});
    }
  }

  lemma ListedSizes(h: HeaderData, ps: seq<Pair>)
    requires Sized(h) && Lists(ps, h.metadata)
    ensures forall i :: 0 <= i < |ps| ==> |ps[i].key| < TWO_63 && |ps[i].value| < TWO_63
  {
  }

  lemma CountedPairsAt(data: bytes, pos: nat, end: nat, ps: seq<Pair>, n: nat, m: map<bytes, bytes>) returns (mid: nat)
    requires n == |ps| < TWO_32 && Spans(data, pos, end, EncodeUint(n) + EncodePairs(ps))
    requires forall i :: 0 <= i < |ps| ==> |ps[i].key| < TWO_63 && |ps[i].value| < TWO_63
    ensures DecodeUint(data, pos) == (n, mid) && ReadPairs(n, m, data, mid) == Ok(m + PairMap(ps), end)
  {
    mid := Split(data, pos, end, EncodeUint(n), EncodePairs(ps));
    UintAt(data, pos, mid, n);
    PairsAt(ps, m, data, mid, end);
  }

  lemma MetadataAt(data: bytes, pos: nat, end: nat, ps: seq<Pair>, m: map<bytes, bytes>)
    requires |ps| < TWO_32 && Spans(data, pos, end, MetadataField(ps))
    requires forall i :: 0 <= i < |ps| ==> |ps[i].key| < TWO_63 && |ps[i].value| < TWO_63
    ensures ReadMetadata(m, data, pos) == Ok(m + PairMap(ps), end)
  {
    var f := Field(FT_MAP, [Field(FT_STRING, []), Field(FT_STRING, [])]);
    var n := |ps|;
    TextMapDescriptor(f);
    InRange(n, TWO_64);
    var mid := Split(data, pos, end, [FT_MAP, FT_STRING, FT_STRING], EncodeUint(n) + EncodePairs(ps));
    FieldAt(data, pos, mid, f);
    var p := CountedPairsAt(data, mid, end, ps, n, m);
    MetadataRead(data, pos, end, f, mid, n, p, m, m + PairMap(ps));
  }

  lemma MetadataRead(data: bytes, pos: nat, end: nat, f: Field, mid: nat, n: nat, p: nat,
                     m: map<bytes, bytes>, r: map<bytes, bytes>)
    requires UnpackField(data, pos) == Ok(f, mid) && IsTextMap(f)
    requires n < TWO_32 && DecodeUint(data, mid) == (n, p) && ReadPairs(n, m, data, p) == Ok(r, end)
    ensures ReadMetadata(m, data, pos) == Ok(r, end)
  {
    InRange(n, TWO_32);
  }

  lemma InRange(n: nat, modulus: nat)
    requires n < modulus
    ensures n % modulus == n
  {
  }

  lemma TextMapDescriptor(f: Field)
    requires f == Field(FT_MAP, [Field(FT_STRING, []), Field(FT_STRING, [])])
    ensures WellFormed(f) && IsTextMap(f) && Flatten(f) == [FT_MAP, FT_STRING, FT_STRING]
  {
    FlattenPair(f.sub[0], f.sub[1]);
    assert Flatten(f.sub[0]) == [FT_STRING];
  }

  /** What a fresh header reads back: the call type is lost when only two fields travel. */
  function ReadBack(h: HeaderData): HeaderData {
    if FieldNum(h) == 2 then h.(callType := 0) else h
  }

  /**
   * What a header that already holds `g` reads: path and name, the call type and the number unless they
   * were left out together with all that follows, and the metadata on top of its own.
   */
  function ReadOver(g: HeaderData, h: HeaderData): HeaderData {
    HeaderData(h.path, h.name,
               if h.callType == NOTIFY && h.seqId == 0 && h.metadata == map[] then g.callType else h.callType,
               if h.seqId == 0 && h.metadata == map[] then g.seqId else h.seqId,
               g.metadata + h.metadata)
  }

  lemma LastFieldAt(data: bytes, pos: nat, end: nat, h: HeaderData, ps: seq<Pair>, m: map<bytes, bytes>)
    requires Sized(h) && Lists(ps, h.metadata) && Spans(data, pos, end, MetadataField(ps))
    ensures ReadMetadata(m, data, pos) == Ok(m + h.metadata, end)
  {
    ListedSizes(h, ps);
    ListsRebuild(ps, h.metadata);
    MetadataAt(data, pos, end, ps, m);
  }

  lemma SuffixAt(data: bytes, pos: nat, end: nat, h: HeaderData, ps: seq<Pair>, g: HeaderData)
    requires Sized(h) && Lists(ps, h.metadata) && Spans(data, pos, end, Suffix(h, ps))
    requires g.path == h.path && g.name == h.name
    ensures UnpackSuffix(FieldNum(h), g, data, pos) == Ok(ReadOver(g, h), end)
  {
    var n := FieldNum(h);
    assert g.metadata + map[] == g.metadata;
    if n > 2 {
      var last := if n == 5 then MetadataField(ps) else [];
      var seqField := [FT_NUMBER] + EncodeUint(h.seqId);
      var third := if n == 3 then [] else seqField + last;
      var p := Split(data, pos, end, [FT_CHAR, h.callType], third);
      CallTypeAt(data, pos, p, h.callType);
      if n > 3 {
        var q := Split(data, p, end, seqField, last);
        NumberAt(data, p, q, h.seqId);
        if n > 4 {
          LastFieldAt(data, q, end, h, ps, g.metadata);
        }
      }
    }
  }

  /** A packed header is read by any header, and the cursor stops right behind it. */
  lemma HeaderOver(data: bytes, pos: nat, end: nat, h: HeaderData, ps: seq<Pair>, g: HeaderData)
    requires Sized(h) && Lists(ps, h.metadata) && Spans(data, pos, end, PackedHeader(h, ps))
    ensures UnpackHeader(g, data, pos) == Ok(ReadOver(g, h), end)
  {
    var n := FieldNum(h);
    var path, name, suffix := TextField(h.path), TextField(h.name), Suffix(h, ps);
    var p0 := Split(data, pos, end, [n], path + (name + suffix));
    ByteAt(data, pos, p0, n);
    var p1 := Split(data, p0, end, path, name + suffix);
    TextAt(data, p0, p1, h.path);
    var p2 := Split(data, p1, end, name, suffix);
    TextAt(data, p1, p2, h.name);
    SuffixAt(data, p2, end, h, ps, g.(path := h.path, name := h.name));
  }

  /** A fresh header reads back the whole, but for the call type when only two fields travel. */
  lemma HeaderAt(data: bytes, pos: nat, end: nat, h: HeaderData, ps: seq<Pair>)
    requires Sized(h) && Lists(ps, h.metadata) && Spans(data, pos, end, PackedHeader(h, ps))
    ensures UnpackHeader(FRESH, data, pos) == Ok(ReadBack(h), end)
  {
    HeaderOver(data, pos, end, h, ps, FRESH);
    assert map[] + h.metadata == h.metadata;
  }

  /**
   * Round trip for any metadata order and any payload: everything comes back, except that a
   * notification with sequence number 0 and no metadata reads back with call type 0.
   */
  lemma HeaderRoundTrip(h: HeaderData, ps: seq<Pair>, payload: bytes)
    requires Sized(h) && Lists(ps, h.metadata)
    ensures var r := UnpackHeader(FRESH, PackedHeader(h, ps) + payload, 0);
      && r == Ok(ReadBack(h), |PackedHeader(h, ps)|)
      && (r.value == h <==> !(h.callType == NOTIFY && h.seqId == 0 && h.metadata == map[]))
  {
    var s := PackedHeader(h, ps);
    assert Spans(s + payload, 0, |s|, s);
    HeaderAt(s + payload, 0, |s|, h, ps);
  }

  // ----- the bytes themselves, and what other senders may write

  /** The bytes of an ordinary request: no metadata, and a number that is not zero. */
  lemma RequestExample()
    ensures PackedHeader(HeaderData([97], [98], 0, 1, map[]), []) == [4, 3, 1, 97, 3, 1, 98, 1, 0, 2, 1]
  {
    assert EncodeUint(1) == [1];
    assert TextField([97]) == [3, 1, 97] && TextField([98]) == [3, 1, 98];
  }

  /** The bytes of a message that uses every field, tag by tag, with the metadata as pairs of key and value. */
  lemma FullLayout(h: HeaderData, ps: seq<Pair>)
    requires h.metadata != map[]
    ensures PackedHeader(h, ps) ==
      [5] + (([3] + EncodeString(h.path)) + (([3] + EncodeString(h.name)) +
      ([1, h.callType] + (([2] + EncodeUint(h.seqId)) + ([5, 3, 3] + (EncodeUint(Unsigned64(|ps|)) + EncodePairs(ps)))))))
  {
  }

  lemma PairsLayout(ps: seq<Pair>, k: bytes, v: bytes)
    ensures EncodePairs([]) == [] && EncodePairs(ps + [Pair(k, v)]) == EncodePairs(ps) + (EncodeString(k) + EncodeString(v))
  {
    assert (ps + [Pair(k, v)])[..|ps|] == ps;
  }

  /** No count and a count of zero panic; a count of one reads the path alone; five and more read alike. */
  lemma AnnouncedFields(g: HeaderData, data: bytes, pos: nat)
    ensures pos >= |data| || data[pos] == 0 ==> UnpackHeader(g, data, pos) == Panic
    ensures pos < |data| && data[pos] == 1 ==>
              UnpackHeader(g, data, pos) == match ReadText(data, pos + 1)
                                            case Ok(path, p) => Ok(g.(path := path), p)
                                            case Panic => Panic
    ensures forall n: byte, p: nat :: n >= 5 ==> UnpackSuffix(n, g, data, p) == UnpackSuffix(5, g, data, p)
  {
  }

  /** A field with another tag than the header expects panics. */
  lemma TagsExpected(data: bytes, pos: nat)
    ensures pos >= |data| || (data[pos] != 2 && data[pos] != 3) ==>
              ReadText(data, pos) == Panic && ReadNumber(data, pos) == Panic
    ensures pos + 1 >= |data| || data[pos] != 1 ==> ReadCallType(data, pos) == Panic
    ensures var r := UnpackField(data, pos);
      r.Ok? && (r.value.base != 5 || r.value.sub[0].base != 3 || r.value.sub[1].base != 3) ==>
        forall m :: ReadMetadata(m, data, pos) == Panic
  {
  }

  /** Where text is expected a number is taken as its decimal text, as a signed one. */
  lemma NumberAsText(x: int, data: bytes, pos: nat, end: nat)
    requires -TWO_63 <= x < TWO_63 && Spans(data, pos, end, [2] + EncodeUint(Unsigned64(x)))
    ensures ReadText(data, pos) == Ok(Itoa(x), end)
  {
    NumberAt(data, pos, end, Unsigned64(x));
    SignedRoundTrip(x);
  }

  /** Where a number is expected its decimal text does as well. */
  lemma TextAsNumber(v: uint64, data: bytes, pos: nat, end: nat)
    requires |Itoa(v)| < TWO_63 && Spans(data, pos, end, [3] + EncodeString(Itoa(v)))
    ensures ReadNumber(data, pos) == Ok(v, end)
  {
    var s := Itoa(v);
    var mid := Split(data, pos, end, [3], EncodeString(s));
    ByteAt(data, pos, mid, 3);
    StringAt(data, mid, end, s);
    TextRoundTrip(v);
    ParsedText(data, pos, mid, end, s);
  }

  lemma ParsedText(data: bytes, pos: nat, mid: nat, end: nat, s: bytes)
    requires DecodeByte(data, pos) == Ok(3, mid) && DecodeString(data, mid) == Ok(s, end)
    ensures ReadNumber(data, pos) == Ok(ParseUint(s), end)
  {
  }
}
