/** Maps are listed in whatever order they are iterated: what is read back does not depend on it. */
module IterationOrder {
  import opened Words
  import opened Wire
  import opened Values
  import opened ValueRoundTrip

  /**
   * The same Go value, listed with its maps in possibly different orders, at any depth. Keys of Go maps
   * contain no maps, so they are listed in one way only.
   */
  ghost predicate SameValue(v: Value, w: Value) {
    match (v, w)
    case (VStruct(vs), VStruct(ws)) => SameAll(vs, ws)
    case (VSlice(e, vs), VSlice(e', ws)) => e == e' && SameAll(vs, ws)
    case (VMap(k, e, es), VMap(k', e', fs)) => k == k' && e == e' && |es| == |fs| && AllListed(es, fs)
    case _ => v == w
  }

  ghost predicate SameAll(vs: seq<Value>, ws: seq<Value>) {
    |vs| == |ws| && (vs != [] ==> SameValue(vs[0], ws[0]) && SameAll(vs[1..], ws[1..]))
  }

  ghost predicate SameEntry(e: Entry, f: Entry) {
    e.key == f.key && SameValue(e.value, f.value)
  }

  /** Every entry of `es` is somewhere in `fs`. */
  ghost predicate AllListed(es: seq<Entry>, fs: seq<Entry>) {
    es != [] ==> Listed(es[0], fs) && AllListed(es[1..], fs)
  }

  ghost predicate Listed(e: Entry, fs: seq<Entry>) {
    exists j :: 0 <= j < |fs| && SameEntry(e, fs[j])
  }

  // ----- a listing in another order has the same type and is as portable

  ghost function KeySet(es: seq<Entry>): set<Value> {
    if es == [] then {} else KeySet(es[1..]) + {es[0].key}
  }

  lemma {:induction false} KeySetHas(es: seq<Entry>, k: Value)
    ensures k in KeySet(es) <==> HasKey(es, k)
  {
    if es != [] {
      KeySetHas(es[1..], k);
      FirstKey(es, k, es[1..]);
    }
  }

  lemma FirstKey(es: seq<Entry>, k: Value, rest: seq<Entry>)
    requires es != [] && rest == es[1..]
    ensures HasKey(es, k) <==> es[0].key == k || HasKey(rest, k)
  {
    if i :| 0 <= i < |es| && es[i].key == k {
      assert i > 0 ==> rest[i - 1].key == k;
    }
    if i :| 0 <= i < |rest| && rest[i].key == k {
      assert es[i + 1].key == k;
    }
  }

  lemma FirstDistinct(es: seq<Entry>, rest: seq<Entry>)
    requires es != [] && rest == es[1..]
    ensures DistinctKeys(es) <==> DistinctKeys(rest) && !HasKey(rest, es[0].key)
  {
    assert forall i :: 0 <= i < |rest| ==> rest[i] == es[i + 1];
    if DistinctKeys(rest) && !HasKey(rest, es[0].key) {
      forall i, j | 0 <= i < j < |es| ensures es[i].key != es[j].key {
        assert es[j] == rest[j - 1];
        if i > 0 { assert es[i] == rest[i - 1]; }
      }
    }
  }

  lemma {:induction false} DistinctCount(es: seq<Entry>)
    ensures |KeySet(es)| <= |es|
    ensures DistinctKeys(es) <==> |KeySet(es)| == |es|
  {
    if es != [] {
      var rest := es[1..];
      DistinctCount(rest);
      FirstDistinct(es, rest);
      KeySetHas(rest, es[0].key);
    }
  }

  lemma {:induction false} ListedAt(es: seq<Entry>, fs: seq<Entry>, i: nat)
    requires AllListed(es, fs) && i < |es|
    ensures Listed(es[i], fs)
  {
    if i > 0 {
      ListedAt(es[1..], fs, i - 1);
    }
  }

  /** As many entries, all listed: then nothing else is listed, and no key twice. */
  lemma Covered(es: seq<Entry>, fs: seq<Entry>)
    requires |es| == |fs| && DistinctKeys(es) && AllListed(es, fs)
    ensures DistinctKeys(fs)
    ensures forall j :: 0 <= j < |fs| ==> exists i :: 0 <= i < |es| && SameEntry(es[i], fs[j])
  {
    forall k | HasKey(es, k) ensures HasKey(fs, k) {
      var i :| 0 <= i < |es| && es[i].key == k;
      ListedAt(es, fs, i);
    }
    DistinctCount(es);
    DistinctCount(fs);
    forall k ensures (k in KeySet(es) <==> HasKey(es, k)) && (k in KeySet(fs) <==> HasKey(fs, k)) {
      KeySetHas(es, k);
      KeySetHas(fs, k);
    }
    SameSet(KeySet(es), KeySet(fs));
    forall j | 0 <= j < |fs| ensures exists i :: 0 <= i < |es| && SameEntry(es[i], fs[j]) {
      assert HasKey(fs, fs[j].key);
      assert fs[j].key in KeySet(es);
      var i :| 0 <= i < |es| && es[i].key == fs[j].key;
      ListedAt(es, fs, i);
      var j' :| 0 <= j' < |fs| && SameEntry(es[i], fs[j']);
      assert j' == j;
    }
  }

  lemma SameSet<T>(a: set<T>, b: set<T>)
    requires a <= b && |b| <= |a|
    ensures a == b
  {
    assert |b - a| == |b| - |a|;
  }

  lemma {:induction false} EachEntry(es: seq<Entry>, k: Type, t: Type, i: nat)
    requires EntriesHaveType(es, k, t) && EntriesPortable(es) && i < |es|
    ensures EntryHasType(es[i], k, t) && EntryPortable(es[i])
  {
    if i > 0 {
      EachEntry(es[1..], k, t, i - 1);
    }
  }

  lemma {:induction false} FromEach(es: seq<Entry>, k: Type, t: Type)
    requires forall i :: 0 <= i < |es| ==> EntryHasType(es[i], k, t) && EntryPortable(es[i])
    ensures EntriesHaveType(es, k, t) && EntriesPortable(es)
  {
    if es != [] {
      assert forall i :: 0 <= i < |es[1..]| ==> es[1..][i] == es[i + 1];
      FromEach(es[1..], k, t);
    }
  }

  lemma {:induction false} SameKeeps(v: Value, w: Value, t: Type)
    requires HasType(v, t) && Portable(v) && SameValue(v, w)
    ensures HasType(w, t) && Portable(w)
    decreases v, 0
  {
    match v
    case VStruct(vs) => FieldsKeep(vs, w.fields, t.fields);
    case VSlice(e, vs) => ItemsKeep(vs, w.items, e);
    case VMap(k, e, es) => EntriesKeep(es, w.entries, k, e);
    case _ =>
  }

  lemma {:induction false} FieldsKeep(vs: seq<Value>, ws: seq<Value>, ts: seq<Type>)
    requires HaveTypes(vs, ts) && AllPortable(vs) && SameAll(vs, ws)
    ensures HaveTypes(ws, ts) && AllPortable(ws)
    decreases vs
  {
    if vs != [] {
      SameKeeps(vs[0], ws[0], ts[0]);
      FieldsKeep(vs[1..], ws[1..], ts[1..]);
    }
  }

  lemma {:induction false} ItemsKeep(vs: seq<Value>, ws: seq<Value>, t: Type)
    requires AllHaveType(vs, t) && AllPortable(vs) && SameAll(vs, ws)
    ensures AllHaveType(ws, t) && AllPortable(ws)
    decreases vs
  {
    if vs != [] {
      SameKeeps(vs[0], ws[0], t);
      ItemsKeep(vs[1..], ws[1..], t);
    }
  }

  lemma {:induction false} EntriesKeep(es: seq<Entry>, fs: seq<Entry>, k: Type, t: Type)
    requires EntriesHaveType(es, k, t) && EntriesPortable(es) && DistinctKeys(es)
    requires |es| == |fs| && AllListed(es, fs)
    ensures EntriesHaveType(fs, k, t) && EntriesPortable(fs) && DistinctKeys(fs)
    decreases es
  {
    Covered(es, fs);
    forall j | 0 <= j < |fs| ensures EntryHasType(fs[j], k, t) && EntryPortable(fs[j]) {
      var i :| 0 <= i < |es| && SameEntry(es[i], fs[j]);
      EachEntry(es, k, t, i);
      EntryKeeps(es[i], fs[j], k, t);
    }
    FromEach(fs, k, t);
  }

  lemma {:induction false} EntryKeeps(e: Entry, f: Entry, k: Type, t: Type)
    requires EntryHasType(e, k, t) && EntryPortable(e) && SameEntry(e, f)
    ensures EntryHasType(f, k, t) && EntryPortable(f)
    decreases e
  {
    SameKeeps(e.value, f.value, t);
  }

  // ----- the statements

  /**
   * Two encodings of one value, made by iterating its maps in different orders, nested ones included, and
   * standing anywhere in any data: both are read to their ends, and as the same value.
   */
  lemma AnyIterationOrder(v: Value, w: Value, t: Type,
                          data: bytes, pos: nat, end: nat, data': bytes, pos': nat, end': nat)
    requires HasType(v, t) && Portable(v) && SameValue(v, w)
    requires Spans(data, pos, end, Encode(v)) && Spans(data', pos', end', Encode(w))
    ensures var a, b := DecodeValue(t, data, pos), DecodeValue(t, data', pos');
      && a.Ok? && b.Ok? && a.pos == end && b.pos == end'
      && SameValue(a.value, b.value) && SameValue(v, b.value)
  {
    SameKeeps(v, w, t);
    ValueAt(v, t, data, pos, end);
    ValueAt(w, t, data', pos', end');
  }

  lemma {:induction false} SameAsItself(v: Value)
    ensures SameValue(v, v)
    decreases v, 0
  {
    match v
    case VStruct(vs) => AllSame(vs);
    case VSlice(_, vs) => AllSame(vs);
    case VMap(_, _, es) => Reordered(es, es);
    case _ =>
  }

  lemma {:induction false} AllSame(vs: seq<Value>)
    ensures SameAll(vs, vs)
    decreases vs
  {
    if vs != [] {
      SameAsItself(vs[0]);
      AllSame(vs[1..]);
    }
  }

  lemma {:induction false} Reordered(es: seq<Entry>, fs: seq<Entry>)
    requires forall e :: e in es ==> e in fs
    ensures AllListed(es, fs)
    decreases es
  {
    if es != [] {
      var e := es[0];
      EntrySame(e);
      assert e in es && e in fs;
      var j :| 0 <= j < |fs| && fs[j] == e;
      assert Listed(e, fs);
      Reordered(es[1..], fs);
    }
  }

  lemma {:induction false} EntrySame(e: Entry)
    ensures SameEntry(e, e)
    decreases e
  {
    SameAsItself(e.value);
  }

  /** Listings of a map that are permutations of each other list the same value. */
  lemma PermutedMap(k: Type, t: Type, es: seq<Entry>, fs: seq<Entry>)
    requires multiset(es) == multiset(fs)
    ensures SameValue(VMap(k, t, es), VMap(k, t, fs))
  {
    assert |multiset(es)| == |es| && |multiset(fs)| == |fs|;
    forall e | e in es ensures e in fs {
      assert e in multiset(fs);
    }
    Reordered(es, fs);
  }
}
