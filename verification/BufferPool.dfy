/** A pool of byte buffers in size classes that double from the smallest to the largest size. */
module BufferPools {
  import opened Words

  // ----- size classes

  /** The sizes of the levels: doubling below the maximum, then the maximum itself. */
  function Sizes(cur: nat, max: nat): (s: seq<nat>)
    requires cur > 0
    decreases max - cur
  {
    if cur < max then [cur] + Sizes(2 * cur, max) else [max]
  }

  /** The smallest size doubled `i` times. */
  function Doubled(min: nat, i: nat): nat
    decreases i
  {
    if i == 0 then min else Doubled(2 * min, i - 1)
  }

  /** The logarithm to base 2 of `size / min`, rounded up, and at least 0. */
  function CeilLog(min: nat, size: nat): nat
    requires min > 0
    decreases size - min
  {
    if size <= min then 0 else 1 + CeilLog(2 * min, size)
  }

  /** The logarithm to base 2 of `size / min`, rounded down, and at least 0. */
  function FloorLog(min: nat, size: nat): nat
    requires min > 0
    decreases size - min
  {
    if size < 2 * min then 0 else 1 + FloorLog(2 * min, size)
  }

  lemma {:induction false} CeilLogLeast(min: nat, size: nat, i: nat)
    requires min > 0
    ensures Doubled(min, i) >= size <==> i >= CeilLog(min, size)
    decreases i
  {
    if i > 0 {
      CeilLogLeast(2 * min, size, i - 1);
    }
  }

  lemma {:induction false} FloorLogGreatest(min: nat, size: nat, i: nat)
    requires 0 < min <= size
    ensures Doubled(min, i) <= size <==> i <= FloorLog(min, size)
    decreases i
  {
    if i > 0 {
      if 2 * min <= size {
        FloorLogGreatest(2 * min, size, i - 1);
      } else {
        DoubledGrows(2 * min, i - 1);
      }
    }
  }

  lemma {:induction false} DoubledGrows(min: nat, i: nat)
    ensures Doubled(min, i) >= min
    decreases i
  {
    if i > 0 {
      DoubledGrows(2 * min, i - 1);
    }
  }

  /** Level `i` holds `min` doubled `i` times, except the last one, which holds the maximum. */
  lemma {:induction false} SizesAt(min: nat, max: nat)
    requires 0 < min <= max
    ensures |Sizes(min, max)| == CeilLog(min, max) + 1
    ensures forall i :: 0 <= i < |Sizes(min, max)| - 1 ==> Sizes(min, max)[i] == Doubled(min, i) < max
    ensures Sizes(min, max)[|Sizes(min, max)| - 1] == max
    decreases max - min
  {
    if 2 * min < max {
      var more := Sizes(2 * min, max);
      SizesAt(2 * min, max);
      assert Sizes(min, max) == [min] + more;
      forall i | 0 <= i < |more| ensures Sizes(min, max)[i + 1] == more[i] && Doubled(min, i + 1) == Doubled(2 * min, i) {
      }
    }
  }

  /** Doubling `i` times, one by one. */
  lemma {:induction false} DoubledNext(min: nat, i: nat)
    ensures Doubled(min, 0) == min && Doubled(min, i + 1) == 2 * Doubled(min, i)
    decreases i
  {
    if i > 0 {
      DoubledNext(2 * min, i - 1);
    }
  }

  /** The levels of the pool for message frames. */
  lemma FrameSizes()
    ensures Sizes(512, 4096) == [512, 1024, 2048, 4096]
  {
  }

  // ----- choosing a level

  function FindPool(min: nat, max: nat, size: nat): Option<nat>
    requires 0 < min <= max
  {
    var idx := CeilLog(min, size);
    if size > max || idx > |Sizes(min, max)| - 1 then None else Some(idx)
  }

  function FindPutPool(min: nat, max: nat, size: nat): Option<nat>
    requires 0 < min <= max
  {
    if size > max || size < min then None else
      var idx := FloorLog(min, size);
      if idx > |Sizes(min, max)| - 1 then None else Some(idx)
  }

  /** A request up to the maximum is served by the first level that is large enough; no other one is. */
  lemma FindPoolBestFit(min: nat, max: nat, size: nat)
    requires 0 < min <= max
    ensures FindPool(min, max, size).Some? <==> size <= max
    ensures size <= max ==>
              var i := FindPool(min, max, size).value;
              && i < |Sizes(min, max)| && size <= Sizes(min, max)[i]
              && forall j :: 0 <= j < i ==> Sizes(min, max)[j] < size
  {
    SizesAt(min, max);
    if size <= max {
      var i, last := CeilLog(min, size), CeilLog(min, max);
      CeilLogLeast(min, max, last);
      CeilLogLeast(min, size, last);
      CeilLogLeast(min, size, i);
      forall j | 0 <= j < i ensures Sizes(min, max)[j] < size {
        CeilLogLeast(min, size, j);
      }
    }
  }

  /** A returned buffer goes to the last doubled size it covers: never to a level it is too small for. */
  lemma FindPutPoolFits(min: nat, max: nat, size: nat)
    requires 0 < min <= max
    ensures FindPutPool(min, max, size).Some? <==> min <= size <= max
    ensures min <= size <= max ==>
              var i := FindPutPool(min, max, size).value;
              && i < |Sizes(min, max)| && Sizes(min, max)[i] <= size
              && (i + 1 < |Sizes(min, max)| ==> size <= Sizes(min, max)[i + 1])
              && (i + 2 < |Sizes(min, max)| ==> size < Sizes(min, max)[i + 1])
  {
    SizesAt(min, max);
    if min <= size <= max {
      var i, last := FloorLog(min, size), CeilLog(min, max);
      FloorLogGreatest(min, size, i);
      FloorLogGreatest(min, size, i + 1);
      CeilLogLeast(min, max, last);
      if i >= last {
        CeilLogLeast(min, max, i);
        if i > last {
          FloorLogGreatest(min, size, last);
          Strictly(min, last, i);
        }
      }
    }
  }

  lemma {:induction false} Strictly(min: nat, i: nat, j: nat)
    requires min > 0 && i < j
    ensures Doubled(min, i) < Doubled(min, j)
    decreases i
  {
    if i > 0 {
      Strictly(2 * min, i - 1, j - 1);
    } else {
      DoubledGrows(2 * min, j - 1);
    }
  }

  /** A buffer goes back to the level that serves requests of its capacity exactly when the capacity is a doubled minimum. */
  lemma SameLevel(min: nat, max: nat, size: nat)
    requires 0 < min <= size <= max
    ensures FindPool(min, max, size) == FindPutPool(min, max, size) <==> exists i :: Doubled(min, i) == size
  {
    FindPoolBestFit(min, max, size);
    FindPutPoolFits(min, max, size);
    var up, down := CeilLog(min, size), FloorLog(min, size);
    CeilLogLeast(min, size, up);
    FloorLogGreatest(min, size, down);
    if i :| Doubled(min, i) == size {
      CeilLogLeast(min, size, i);
      FloorLogGreatest(min, size, i);
      CeilLogLeast(min, size, down);
      FloorLogGreatest(min, size, up);
      if down > up {
        Strictly(min, up, down);
      }
    }
  }

  /** Buffers of the last level come back to it exactly when the maximum is a doubled minimum. */
  lemma LastLevelRecycled(min: nat, max: nat)
    requires 0 < min <= max
    ensures FindPutPool(min, max, max) == Some(|Sizes(min, max)| - 1) <==> exists i :: Doubled(min, i) == max
  {
    SizesAt(min, max);
    SameLevel(min, max, max);
    assert FindPool(min, max, max) == Some(CeilLog(min, max));
  }

  // ----- the pool

  /** A pointer to a byte slice: its backing array, whose size is the capacity, and its length. */
  class Buffer {
    const arr: array<byte>
    var len: nat

    ghost predicate Valid()
      reads this
    {
      len <= arr.Length
    }

    ghost function Content(): bytes
      reads this, arr
      requires Valid()
    {
      arr[..len]
    }

    constructor (size: nat)
      ensures Valid() && len == arr.Length == size && fresh(arr)
    {
      arr, len := new byte[size](_ => 0), size;
    }
  }

  /** One size class and the buffers that wait in it. */
  datatype Level = Level(size: nat, stored: set<Buffer>)

  ghost function Waiting(pools: seq<Level>): set<Buffer> {
    set i, b | 0 <= i < |pools| && b in pools[i].stored :: b
  }

  /** Every waiting buffer is large enough for its level. */
  ghost predicate Fits(pools: seq<Level>) {
    forall i, b :: 0 <= i < |pools| && b in pools[i].stored ==> pools[i].size <= b.arr.Length
  }

  /** No buffer waits twice, or waits while somebody holds it, and no two share memory. */
  ghost predicate Apart(pools: seq<Level>, held: set<Buffer>) {
    && held !! Waiting(pools)
    && (forall i, j :: 0 <= i < j < |pools| ==> pools[i].stored !! pools[j].stored)
    && (forall b, c :: b in held + Waiting(pools) && c in held + Waiting(pools) && b != c ==> b.arr != c.arr)
  }

  /** A held buffer that starts to wait in one level. */
  lemma Returned(pools: seq<Level>, held: set<Buffer>, b: Buffer, i: nat, after: seq<Level>)
    requires Fits(pools) && Apart(pools, held) && b in held && i < |pools| && pools[i].size <= b.arr.Length
    requires after == pools[i := Level(pools[i].size, pools[i].stored + {b})]
    ensures Fits(after) && Apart(after, held - {b})
  {
    assert Waiting(after) == Waiting(pools) + {b} by {
      assert forall j :: 0 <= j < |pools| ==> after[j].stored == pools[j].stored + if j == i then {b} else {};
      assert b in after[i].stored;
    }
  }

  /** A waiting buffer that is taken out. */
  lemma TakenOut(pools: seq<Level>, held: set<Buffer>, b: Buffer, i: nat, after: seq<Level>)
    requires Fits(pools) && Apart(pools, held) && i < |pools| && b in pools[i].stored
    requires after == pools[i := Level(pools[i].size, pools[i].stored - {b})]
    ensures Fits(after) && Apart(after, held + {b}) && Less(after, pools, b)
  {
    assert b in Waiting(pools);
    forall j | 0 <= j < |pools| ensures after[j].stored == pools[j].stored - {b} {
      assert j != i ==> b !in pools[j].stored;
    }
  }

  /** A new buffer that is handed out. */
  lemma HandedOut(pools: seq<Level>, held: set<Buffer>, b: Buffer)
    requires Apart(pools, held) && b !in held && b !in Waiting(pools)
    requires forall c :: c in held + Waiting(pools) ==> b.arr != c.arr
    ensures Apart(pools, held + {b}) && Less(pools, pools, b)
  {
    forall i | 0 <= i < |pools| ensures pools[i].stored - {b} == pools[i].stored {
      assert forall c :: c in pools[i].stored ==> c in Waiting(pools);
    }
  }

  lemma NothingWaits(pools: seq<Level>)
    requires forall i :: 0 <= i < |pools| ==> pools[i].stored == {}
    ensures Waiting(pools) == {} && Fits(pools) && Apart(pools, {})
  {
  }

  lemma SameSizes(was: seq<Level>, now: seq<Level>)
    requires |was| == |now| && forall i :: 0 <= i < |was| ==> was[i].size == now[i].size
    ensures SizesOf(was) == SizesOf(now)
  {
  }

  /** Level `i` is the first one of at least the size. */
  ghost predicate FirstFit(pools: seq<Level>, size: nat, i: nat) {
    i < |pools| && size <= pools[i].size && forall j :: 0 <= j < i ==> pools[j].size < size
  }

  lemma FitsFirst(pools: seq<Level>, min: nat, max: nat, size: nat, i: nat)
    requires 0 < min <= max && SizesOf(pools) == Sizes(min, max) && FindPool(min, max, size) == Some(i)
    ensures FirstFit(pools, size, i)
  {
    FindPoolBestFit(min, max, size);
    SameCount(pools);
    assert forall j :: 0 <= j < |pools| ==> pools[j].size == SizesOf(pools)[j];
  }

  class LimitedPool {
    const minSize: nat
    const maxSize: nat
    var pools: seq<Level>
    /** The buffers handed out and not yet returned. */
    ghost var held: set<Buffer>

    ghost function Stored(): set<Buffer>
      reads this
    {
      Waiting(pools)
    }

    /** The memory behind the waiting buffers. */
    ghost function Memory(): set<array<byte>>
      reads this
    {
      set b | b in Stored() :: b.arr
    }

    /** The level sizes never change. */
    ghost predicate Levels()
      reads this
    {
      0 < minSize <= maxSize && SizesOf(pools) == Sizes(minSize, maxSize)
    }

    ghost predicate Valid()
      reads this
    {
      Levels() && Fits(pools) && Apart(pools, held)
    }

    /** Null where the source panics. */
    static method NewLimitedPool(minSize: nat, maxSize: nat) returns (p: LimitedPool?)
      requires 0 < minSize
      ensures p == null <==> maxSize < minSize
      ensures p != null ==> fresh(p) && p.Valid() && p.minSize == minSize && p.maxSize == maxSize
      ensures p != null ==> p.held == {} && p.Stored() == {}
    {
      if maxSize < minSize {
        return null;
      }
      p := new LimitedPool(minSize, maxSize);
    }

    constructor (minSize: nat, maxSize: nat)
      requires 0 < minSize <= maxSize
      ensures Valid() && held == {} && Stored() == {}
      ensures this.minSize == minSize && this.maxSize == maxSize
    {
      this.minSize, this.maxSize, held := minSize, maxSize, {};
      var levels := MakeLevels(minSize, maxSize);
      NothingWaits(levels);
      pools := levels;
    }

    /** Doubles the size until the maximum; the last level gets the maximum itself. */
    static method MakeLevels(minSize: nat, maxSize: nat) returns (levels: seq<Level>)
      requires 0 < minSize <= maxSize
      ensures SizesOf(levels) == Sizes(minSize, maxSize)
      ensures forall i :: 0 <= i < |levels| ==> levels[i].stored == {}
    {
      levels := [];
      var curSize := minSize;
      while curSize < maxSize
        invariant 0 < curSize
        invariant forall i :: 0 <= i < |levels| ==> levels[i].stored == {}
        invariant SizesOf(levels) + Sizes(curSize, maxSize) == Sizes(minSize, maxSize)
        decreases maxSize - curSize
      {
        OneMoreSize(levels, Level(curSize, {}));
        levels := levels + [Level(curSize, {})];
        curSize := curSize * 2;
      }
      OneMoreSize(levels, Level(maxSize, {}));
      levels := levels + [Level(maxSize, {})];
    }

    /** A waiting buffer, any of them, or a new one of the level's size: the choice is not the caller's. */
    method TakeFrom(i: nat) returns (b: Buffer)
      requires Valid() && i < |pools|
      modifies this
      ensures Valid() && b !in old(held) && held == old(held) + {b}
      ensures b.arr.Length >= pools[i].size
      ensures b in old(pools[i].stored) || (fresh(b) && fresh(b.arr) && b.arr.Length == old(pools[i].size))
      ensures Less(pools, old(pools), b)
    {
      if * {
        if pools[i].stored != {} {
          b :| b in pools[i].stored;
          ghost var was := pools;
          pools := pools[i := Level(pools[i].size, pools[i].stored - {b})];
          TakenOut(was, held, b, i, pools);
          SameSizes(was, pools);
          held := held + {b};
          return;
        }
      }
      b := new Buffer(pools[i].size);
      HandedOut(pools, held, b);
      held := held + {b};
    }

    /**
     * A buffer of exactly the length asked for, held by nobody else; its bytes are whatever the last
     * holder left in it. Above the maximum the pool is not involved.
     */
    method Get(size: nat) returns (b: Buffer)
      requires Valid()
      modifies this, Stored()
      ensures Valid() && b.Valid() && b.len == size
      ensures b !in old(held) && held == old(held) + {b}
      ensures b in old(Stored()) || (fresh(b) && fresh(b.arr))
      ensures size > maxSize ==> fresh(b) && fresh(b.arr) && b.arr.Length == size
      ensures size <= maxSize ==> exists i: nat ::
        && FirstFit(old(pools), size, i)
        && (b in old(pools)[i].stored || (fresh(b) && fresh(b.arr) && b.arr.Length == old(pools)[i].size))
      ensures Less(pools, old(pools), b)
      ensures forall c :: c in old(Stored()) && c != b ==> c.len == old(c.len)
    {
      FindPoolBestFit(minSize, maxSize, size);
      SameCount(pools);
      var i := FindPool(minSize, maxSize, size);
      if i == None {
        b := new Buffer(size);
        HandedOut(pools, held, b);
        held := held + {b};
        return;
      }
      FitsFirst(pools, minSize, maxSize, size, i.value);
      b := TakeFrom(i.value);
      b.len := size;
    }

    /** Takes a buffer back at full length, or leaves it to the garbage collector when no level fits. */
    method Put(b: Buffer)
      requires Valid() && b in held
      modifies this, b`len
      ensures Valid() && held == old(held) - {b}
      ensures |pools| == |old(pools)|
      ensures forall j :: 0 <= j < |pools| ==>
                var back := FindPutPool(minSize, maxSize, b.arr.Length) == Some(j);
                pools[j] == Level(old(pools[j].size), old(pools[j].stored) + if back then {b} else {})
      ensures b.len == if minSize <= b.arr.Length <= maxSize then b.arr.Length else old(b.len)
    {
      FindPutPoolFits(minSize, maxSize, b.arr.Length);
      SameCount(pools);
      var i := FindPutPool(minSize, maxSize, b.arr.Length);
      if i == None {
        held := held - {b};
        return;
      }
      assert SizesOf(pools)[i.value] == pools[i.value].size;
      b.len := b.arr.Length;
      ghost var was := pools;
      pools := pools[i.value := Level(pools[i.value].size, pools[i.value].stored + {b})];
      Returned(was, held, b, i.value, pools);
      SameSizes(was, pools);
      held := held - {b};
    }

    /** The garbage collector may drop waiting buffers at any time. */
    method Collect(dropped: set<Buffer>)
      requires Valid()
      modifies this`pools
      ensures Valid() && |pools| == |old(pools)|
      ensures forall j :: 0 <= j < |pools| ==>
                pools[j] == Level(old(pools[j].size), old(pools[j].stored) - dropped)
    {
      var was := pools;
      pools := seq(|was|, i requires 0 <= i < |was| => Level(was[i].size, was[i].stored - dropped));
      assert SizesOf(pools) == SizesOf(was);
    }
  }

  lemma SameCount(levels: seq<Level>)
    ensures |SizesOf(levels)| == |levels|
  {
  }

  ghost function SizesOf(levels: seq<Level>): seq<nat> {
    seq(|levels|, i requires 0 <= i < |levels| => levels[i].size)
  }

  lemma OneMoreSize(levels: seq<Level>, l: Level)
    ensures SizesOf(levels + [l]) == SizesOf(levels) + [l.size]
  {
  }

  /** The levels without buffer `b`. */
  ghost predicate Less(now: seq<Level>, was: seq<Level>, b: Buffer) {
    |now| == |was| && forall j :: 0 <= j < |was| ==> now[j] == Level(was[j].size, was[j].stored - {b})
  }
}
