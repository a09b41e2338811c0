/**
 * Jump consistent hashing. Floating-point division and multiplication are the real operations followed
 * by a rounding; nothing more is used of the rounding than what IEEE 754 doubles guarantee of it here.
 */
module JumpHash {
  import opened Words

  type Rounding = real -> real

  const TWO_31: int := 0x8000_0000
  const TWO_53: int := 0x20_0000_0000_0000
  const TWO_62: int := 0x4000_0000_0000_0000

  ghost predicate Fixes(rnd: Rounding, n: nat) {
    rnd(n as real) == n as real
  }

  /** Rounding is monotone, and it leaves alone the integers up to 2^53, and 2^62. */
  ghost predicate IsRounding(rnd: Rounding) {
    && (forall x, y :: x <= y ==> rnd(x) <= rnd(y))
    && (forall n: nat :: n <= TWO_53 ==> Fixes(rnd, n))
    && Fixes(rnd, TWO_62)
  }

  /** No rounding at all. */
  function Exact(): Rounding {
    (x: real) => x
  }

  lemma ExactIsRounding()
    ensures IsRounding(Exact())
  {
  }

  function NextKey(key: uint64): uint64 {
    (key * 2862933555777941757 + 1) % TWO_64
  }

  /** 2^31 / ((key >> 33) + 1) as the processor computes it. */
  function Stretch(rnd: Rounding, key: uint64): real {
    rnd(TWO_31 as real / (key / 0x2_0000_0000 + 1) as real)
  }

  /** The bucket after `b`, for the key already advanced. */
  function NextBucket(rnd: Rounding, key: uint64, b: nat): int {
    rnd((b + 1) as real * Stretch(rnd, key)).Floor
  }

  lemma QuotientRange(d: nat)
    requires 1 <= d <= TWO_31
    ensures 1.0 <= TWO_31 as real / d as real <= TWO_31 as real
  {
    var q := TWO_31 as real / d as real;
    assert q * d as real == TWO_31 as real;
  }

  lemma ProductRange(a: real, q: real, x: real, bound: real, square: real)
    requires 1.0 <= a <= bound && 1.0 <= q <= bound && x == a * q && square == bound * bound
    ensures a <= x <= square
  {
    assert a * q <= bound * q <= bound * bound;
  }

  /** Rounding keeps a number between integers it leaves alone. */
  lemma RoundsBetween(rnd: Rounding, low: nat, x: real, high: nat)
    requires IsRounding(rnd) && Fixes(rnd, low) && Fixes(rnd, high)
    requires low as real <= x <= high as real
    ensures low as real <= rnd(x) <= high as real
  {
  }

  lemma StretchRange(rnd: Rounding, key: uint64)
    requires IsRounding(rnd)
    ensures 1.0 <= Stretch(rnd, key) <= TWO_31 as real
  {
    var d := key / 0x2_0000_0000 + 1;
    QuotientRange(d);
    RoundsBetween(rnd, 1, TWO_31 as real / d as real, TWO_31);
  }

  /** Every jump goes forward, and stays within 64-bit integers. */
  lemma JumpsForward(rnd: Rounding, key: uint64, b: nat)
    requires IsRounding(rnd) && b < TWO_31
    ensures b + 1 <= NextBucket(rnd, key, b) <= TWO_62
  {
    StretchRange(rnd, key);
    Scaled(rnd, b, (b + 1) as real, Stretch(rnd, key));
  }

  lemma Scaled(rnd: Rounding, b: nat, a: real, q: real)
    requires IsRounding(rnd) && b < TWO_31 && a == (b + 1) as real && 1.0 <= q <= TWO_31 as real
    ensures b + 1 <= rnd(a * q).Floor <= TWO_62
  {
    var low, x := b + 1, a * q;
    ProductRange(a, q, x, TWO_31 as real, TWO_62 as real);
    ScaledRange(rnd, low, a, x);
  }

  lemma ScaledRange(rnd: Rounding, low: nat, a: real, x: real)
    requires IsRounding(rnd) && low <= TWO_31 && a == low as real && a <= x <= TWO_62 as real
    ensures low <= rnd(x).Floor <= TWO_62
  {
    assert Fixes(rnd, low);
    RoundsBetween(rnd, low, x, TWO_62);
  }

  /** One round of the loop: the key advanced, and the bucket after `b`. */
  type Jump = (uint64, nat) -> (uint64, int)

  function JumpOf(rnd: Rounding): Jump {
    (key: uint64, b: nat) => (NextKey(key), NextBucket(rnd, NextKey(key), b))
  }

  ghost predicate Forward(jump: Jump) {
    forall key: uint64, b: nat :: b < TWO_31 ==> b < jump(key, b).1 <= TWO_62
  }

  lemma RoundedJumpsForward(rnd: Rounding)
    requires IsRounding(rnd)
    ensures Forward(JumpOf(rnd))
  {
    forall key: uint64, b: nat | b < TWO_31 ensures b < JumpOf(rnd)(key, b).1 <= TWO_62 {
      JumpsForward(rnd, NextKey(key), b);
    }
  }

  /** From bucket `b`, with the next one at `j`: the last bucket of the jump sequence below `n`. */
  function LastBelow(jump: Jump, key: uint64, b: nat, j: nat, n: nat): nat
    requires Forward(jump) && n <= TWO_31
    decreases n - j
  {
    if j >= n then b else
      var (k, next) := jump(key, j);
      LastBelow(jump, k, j, next, n)
  }

  /** A count that is not positive is taken as one. */
  function Buckets(buckets: int): nat {
    if buckets <= 0 then 1 else buckets
  }

  function HashOf(rnd: Rounding, key: uint64, buckets: int): nat
    requires IsRounding(rnd) && buckets < TWO_31
  {
    RoundedJumpsForward(rnd);
    LastBelow(JumpOf(rnd), key, 0, 0, Buckets(buckets))
  }

  method Hash(rnd: Rounding, key: uint64, buckets: int) returns (r: nat)
    requires IsRounding(rnd) && buckets < TWO_31
    ensures r == HashOf(rnd, key, buckets)
  {
    var n := if buckets <= 0 then 1 else buckets;
    var b: nat, j: nat, k := 0, 0, key;
    RoundedJumpsForward(rnd);
    while j < n
      invariant LastBelow(JumpOf(rnd), k, b, j, n) == HashOf(rnd, key, buckets)
      invariant b < n && j <= TWO_62
      decreases n - j
    {
      b := j;
      JumpsForward(rnd, NextKey(k), b);
      assert JumpOf(rnd)(k, b) == (NextKey(k), NextBucket(rnd, NextKey(k), b));
      k := NextKey(k);
      j := NextBucket(rnd, k, b);
    }
    r := b;
  }

  // ----- the jump sequence does not depend on the number of buckets

  /** The key and the bucket after `i` jumps from bucket 0; only buckets below 2^31 matter. */
  function After(jump: Jump, key: uint64, i: nat): (uint64, nat)
    requires Forward(jump)
  {
    if i == 0 then (key, 0) else
      var (k, b) := After(jump, key, i - 1);
      if b >= TWO_31 then (k, b) else jump(k, b)
  }

  lemma {:induction false} LandingsGrow(jump: Jump, key: uint64, i: nat, j: nat)
    requires Forward(jump) && i <= j
    ensures After(jump, key, i).1 <= After(jump, key, j).1
    ensures i < j && After(jump, key, i).1 < TWO_31 ==> After(jump, key, i).1 < After(jump, key, j).1
    decreases j
  {
    if i < j {
      LandingsGrow(jump, key, i, j - 1);
    }
  }

  /** The loop at the i-th landing ends at the last landing below `n`. */
  lemma {:induction false} EndsAtLanding(jump: Jump, key: uint64, i: nat, b: nat, n: nat) returns (last: nat)
    requires Forward(jump) && n <= TWO_31 && After(jump, key, i).1 < n
    ensures i <= last && After(jump, key, last).1 < n <= After(jump, key, last + 1).1
    ensures LastBelow(jump, After(jump, key, i).0, b, After(jump, key, i).1, n) == After(jump, key, last).1
    decreases n - After(jump, key, i).1
  {
    var next := i + 1;
    LandingsGrow(jump, key, i, next);
    if After(jump, key, next).1 >= n {
      last := i;
    } else {
      last := EndsAtLanding(jump, key, next, After(jump, key, i).1, n);
    }
  }

  /** The i-th bucket of the jump sequence of a key. */
  function Landing(rnd: Rounding, key: uint64, i: nat): nat
    requires IsRounding(rnd)
  {
    RoundedJumpsForward(rnd);
    After(JumpOf(rnd), key, i).1
  }

  /** The bucket of a key is its last landing below the number of buckets. */
  lemma HashIsLastLanding(rnd: Rounding, key: uint64, buckets: int) returns (last: nat)
    requires IsRounding(rnd) && buckets < TWO_31
    ensures HashOf(rnd, key, buckets) == Landing(rnd, key, last) < Buckets(buckets)
    ensures forall i: nat :: Landing(rnd, key, i) < Buckets(buckets) <==> i <= last
  {
    RoundedJumpsForward(rnd);
    last := LastLanding(JumpOf(rnd), key, Buckets(buckets));
  }

  lemma LastLanding(jump: Jump, key: uint64, n: nat) returns (last: nat)
    requires Forward(jump) && 1 <= n <= TWO_31
    ensures LastBelow(jump, key, 0, 0, n) == After(jump, key, last).1 < n
    ensures forall i: nat :: After(jump, key, i).1 < n <==> i <= last
  {
    last := EndsAtLanding(jump, key, 0, 0, n);
    forall i: nat ensures After(jump, key, i).1 < n <==> i <= last {
      if i <= last {
        LandingsGrow(jump, key, i, last);
      } else {
        LandingsGrow(jump, key, last + 1, i);
      }
    }
  }

  /** For any jumps that go forward: more buckets change the result exactly when it is one of the new ones. */
  lemma KeepsBucket(jump: Jump, key: uint64, n: nat, m: nat)
    requires Forward(jump) && 1 <= n <= m <= TWO_31
    ensures LastBelow(jump, key, 0, 0, m) == LastBelow(jump, key, 0, 0, n) <==> LastBelow(jump, key, 0, 0, m) < n
  {
    var i := LastLanding(jump, key, n);
    var j := LastLanding(jump, key, m);
    if After(jump, key, j).1 < n {
      assert j <= i;
      assert After(jump, key, i).1 < m;
    }
  }

  /** The result is a bucket number, for every count. */
  lemma HashInRange(rnd: Rounding, key: uint64, buckets: int)
    requires IsRounding(rnd) && buckets < TWO_31
    ensures HashOf(rnd, key, buckets) < if buckets <= 0 then 1 else buckets
  {
    var last := HashIsLastLanding(rnd, key, buckets);
  }

  /** Minimal movement: between `n` and more buckets a key keeps its bucket exactly when it does not move to a new one. */
  lemma MinimalMovement(rnd: Rounding, key: uint64, n: int, m: int)
    requires IsRounding(rnd) && 1 <= n <= m < TWO_31
    ensures HashOf(rnd, key, m) == HashOf(rnd, key, n) <==> HashOf(rnd, key, m) < n
  {
    RoundedJumpsForward(rnd);
    KeepsBucket(JumpOf(rnd), key, n, m);
  }

  /** One more bucket: a key stays, or moves to the new bucket. */
  lemma GrowByOne(rnd: Rounding, key: uint64, n: int)
    requires IsRounding(rnd) && 1 <= n < TWO_31 - 1
    ensures HashOf(rnd, key, n + 1) == HashOf(rnd, key, n) || HashOf(rnd, key, n + 1) == n
  {
    MinimalMovement(rnd, key, n, n + 1);
    HashInRange(rnd, key, n + 1);
  }

  // ----- choosing a server

  /** The number of servers is truncated to a signed 32-bit number first. */
  function ServerIndex(rnd: Rounding, key: uint64, len: int): nat
    requires IsRounding(rnd)
  {
    HashOf(rnd, key, Signed(Unsigned64(len), TWO_32))
  }

  /** A valid index exactly when there is a server. */
  lemma ServerIndexInRange(rnd: Rounding, key: uint64, len: int)
    requires IsRounding(rnd) && -TWO_63 <= len < TWO_63
    ensures ServerIndex(rnd, key, len) < len <==> len >= 1
  {
    if len >= 1 {
      HashInRange(rnd, key, Signed(Unsigned64(len), TWO_32));
      TruncatedLess(len);
    }
  }

  /** Up to 2^31 servers nothing is truncated. */
  lemma ServerIndexIs(rnd: Rounding, key: uint64, len: int)
    requires IsRounding(rnd) && -0x8000_0000 <= len < 0x8000_0000
    ensures ServerIndex(rnd, key, len) == HashOf(rnd, key, len)
  {
    NotTruncated(len);
  }

  lemma NotTruncated(len: int)
    requires -0x8000_0000 <= len < 0x8000_0000
    ensures Signed(Unsigned64(len), TWO_32) == len
  {
  }

  lemma TruncatedLess(len: nat)
    requires len < TWO_63
    ensures Signed(Unsigned64(len), TWO_32) <= len
  {
  }

  // ----- where keys land, by exact arithmetic

  /** Advancing the key loses nothing: every 64-bit number is the advance of exactly one key. */
  lemma AdvanceInverts(key: uint64)
    ensures (NextKey(key) - 1) * 16133697096952638549 % 0x1_0000_0000_0000_0000 == key
    ensures NextKey((key - 1) * 16133697096952638549 % 0x1_0000_0000_0000_0000) == key
  {
    var x, y := key * 2862933555777941757 + 1, (key - 1) * 16133697096952638549;
    var m, l := x / TWO_64, y / TWO_64;
    BackAgain(key, m, x % TWO_64);
    ForthAgain(key, l, y % TWO_64);
  }

  lemma BackAgain(key: uint64, m: int, k: int)
    requires k == key * 2862933555777941757 + 1 - TWO_64 * m
    ensures (k - 1) * 16133697096952638549 % TWO_64 == key
  {
    Whole(key, key * 2503948805982125087 - m * 16133697096952638549);
  }

  lemma ForthAgain(key: uint64, l: int, k: int)
    requires k == (key - 1) * 16133697096952638549 - TWO_64 * l
    ensures (k * 2862933555777941757 + 1) % TWO_64 == key
  {
    Whole(key, (key - 1) * 2503948805982125087 - l * 2862933555777941757);
  }

  lemma Whole(x: uint64, k: int)
    ensures (x + TWO_64 * k) % TWO_64 == x
  {
  }

  lemma ExactFloor(a: nat, total: nat, d: nat, n: nat)
    requires d > 0
    ensures (a as real * (total as real / d as real)).Floor < n <==> a * total < n * d
  {
    var q := total as real / d as real;
    assert q * d as real == total as real;
    var x, y, e := a as real * q, n as real, d as real;
    assert x * e == a as real * total as real == (a * total) as real;
    assert y * e == (n * d) as real;
    Scaling(x, y, e);
  }

  lemma Scaling(x: real, y: real, e: real)
    requires e > 0.0
    ensures x < y <==> x * e < y * e
  {
    if x < y { assert (y - x) * e > 0.0; }
    if x > y { assert (x - y) * e > 0.0; }
  }

  lemma QuotientBound(x: nat, n: nat, h: nat)
    requires n > 0
    ensures x < n * (h + 1) <==> h >= x / n
  {
    var q, r := x / n, x % n;
    assert x == n * q + r;
    if h >= q {
      Ordered(n, q + 1, h + 1);
    } else {
      Ordered(n, h + 1, q);
    }
  }

  lemma Ordered(n: nat, x: nat, y: nat)
    requires x <= y
    ensures n * x <= n * y
  {
  }

  /**
   * The share law: from bucket `b` a key jumps beyond the last of `n` buckets for exactly
   * (b + 1) * 2^31 / n of the 2^31 values its high bits can have after the advance.
   */
  lemma ShareLaw(key: uint64, b: nat, n: nat)
    requires b < n
    ensures NextBucket(Exact(), key, b) < n <==> key / 0x2_0000_0000 >= (b + 1) * 0x8000_0000 / n
  {
    var h := key / 0x2_0000_0000;
    ExactFloor(b + 1, 0x8000_0000, h + 1, n);
    QuotientBound((b + 1) * 0x8000_0000, n, h);
  }

  /** How many of the first `top` values of the high bits keep a key in bucket `b` of `n`. */
  function Keeping(b: nat, n: nat, top: nat): nat
    requires top <= 0x8000_0000
  {
    if top == 0 then 0 else
      Keeping(b, n, top - 1) + if NextBucket(Exact(), (top - 1) * 0x2_0000_0000, b) >= n then 1 else 0
  }

  lemma {:induction false} KeepingFirst(b: nat, n: nat, top: nat, k: nat)
    requires b < n && k == (b + 1) * 0x8000_0000 / n && top <= 0x8000_0000
    ensures Keeping(b, n, top) == if top < k then top else k
  {
    if top > 0 {
      var h := top - 1;
      KeepingFirst(b, n, h, k);
      ShareLaw(h * 0x2_0000_0000, b, n);
      HighBits(h);
    }
  }

  lemma HighBits(h: nat)
    ensures h * 0x2_0000_0000 / 0x2_0000_0000 == h
  {
  }

  /** The share law as a count of all values of the high bits. */
  lemma ShareCount(b: nat, n: nat)
    requires b < n
    ensures Keeping(b, n, 0x8000_0000) == (b + 1) * 0x8000_0000 / n
  {
    AtMost(b + 1, n);
    KeepingFirst(b, n, 0x8000_0000, (b + 1) * 0x8000_0000 / n);
  }

  lemma AtMost(a: nat, n: nat)
    requires 0 < a <= n
    ensures a * 0x8000_0000 / n <= 0x8000_0000
  {
    QuotientBound(a * 0x8000_0000, n, 0x8000_0000);
    Ordered(0x8000_0000, a, n);
  }

  // ----- every bucket is some key's bucket

  /**
   * The keys and their advances form a lattice. It has two short vectors, (975451704, -3597658792) and
   * (4918494013, 770597705), so every box of 2^33 by 2^33 holds a point: any high bits go with an advance
   * whose high bits are zero.
   */
  lemma SmallAdvance(h: nat) returns (key: uint64)
    requires h < 0x8000_0000
    ensures key / 0x2_0000_0000 == h && NextKey(key) < 0x2_0000_0000
  {
    var x := h * 0x2_0000_0000;
    var start := x * 2862933555777941757 + 1;
    var y, m := start % TWO_64, start / TWO_64;
    var p, q := 0x1_FFFF_FFFF, 770597705 - y;
    var a, b := p * 770597705 - q * 4918494013, 975451704 * q + 3597658792 * p;
    var i, j := a / TWO_64, b / TWO_64;
    var dx := i * 975451704 + j * 4918494013;
    var y' := y - i * 3597658792 + j * 770597705;
    InBox(p, q, i, a % TWO_64, j, b % TWO_64, dx, y' - y);
    key := x + dx;
    HighPart(h, dx);
    AdvanceOf(key, y', m + i * 151390045 + j * 763349971);
  }

  /** The lattice point below and left of a point is at most the sides of the two vectors away from it. */
  lemma InBox(p: int, q: int, i: int, r: int, j: int, s: int, dx: int, dy: int)
    requires TWO_64 * i + r == p * 770597705 - q * 4918494013 && 0 <= r < TWO_64
    requires TWO_64 * j + s == 975451704 * q + 3597658792 * p && 0 <= s < TWO_64
    requires dx == i * 975451704 + j * 4918494013 && dy == j * 770597705 - i * 3597658792
    ensures p - 5893945717 < dx <= p
    ensures q - 770597705 < dy < q + 3597658792
  {
    assert TWO_64 * dx == TWO_64 * p - (r * 975451704 + s * 4918494013);
    assert TWO_64 * dy == TWO_64 * q + r * 3597658792 - s * 770597705;
  }

  lemma HighPart(h: nat, low: nat)
    requires low < 0x2_0000_0000
    ensures (h * 0x2_0000_0000 + low) / 0x2_0000_0000 == h
  {
  }

  lemma AdvanceOf(key: uint64, y: uint64, m: int)
    requires key * 2862933555777941757 + 1 == y + TWO_64 * m
    ensures NextKey(key) == y
  {
    Whole(y, m);
  }

  lemma ExactFloorIs(a: nat, total: nat, d: nat, t: nat)
    requires d > 0 && t * d <= a * total < (t + 1) * d
    ensures (a as real * (total as real / d as real)).Floor == t
  {
    ExactFloor(a, total, d, t);
    ExactFloor(a, total, d, t + 1);
  }

  /** From bucket 0 a key can jump to bucket `t` when `t` is at most the square root of 2^31. */
  lemma FirstJump(t: nat) returns (h: nat)
    requires 0 < t && t * t <= 0x8000_0000
    ensures h < 0x8000_0000
    ensures forall key: uint64 :: key / 0x2_0000_0000 == h ==> NextBucket(Exact(), key, 0) == t
  {
    var d := 0x8000_0000 / t;
    DivisorFor(t, d);
    h := d - 1;
    forall key: uint64 | key / 0x2_0000_0000 == h ensures NextBucket(Exact(), key, 0) == t {
      ExactFloorIs(1, 0x8000_0000, d, t);
    }
  }

  lemma DivisorFor(t: nat, d: nat)
    requires 0 < t && t * t <= 0x8000_0000 && d == 0x8000_0000 / t
    ensures 1 <= d <= 0x8000_0000 && t * d <= 0x8000_0000 < (t + 1) * d
  {
    var r := 0x8000_0000 % t;
    assert 0x8000_0000 == t * d + r;
    if d < t {
      Ordered(t, d, t - 1);
    }
  }

  /** With zero high bits a jump leaves every smaller number of buckets. */
  lemma LastJump(key: uint64, b: nat)
    requires key < 0x2_0000_0000
    ensures NextBucket(Exact(), key, b) >= 0x8000_0000
  {
    ExactFloor(b + 1, 0x8000_0000, 1, 0x8000_0000);
  }

  /** Every bucket is some key's bucket, whatever the number of buckets, up to the square root of 2^31. */
  lemma EveryBucketUsed(t: nat, n: nat) returns (key: uint64)
    requires t < n < 0x8000_0000 && t * t <= 0x8000_0000
    ensures IsRounding(Exact()) && HashOf(Exact(), key, n) == t
  {
    ExactIsRounding();
    var first: uint64 := 0;
    if t > 0 {
      var h := FirstJump(t);
      first := SmallAdvance(h);
    }
    key := (first - 1) * 16133697096952638549 % TWO_64;
    AdvanceInverts(first);
    if t == 0 {
      LastJump(first, 0);
      StopsAfter(key, first, 0, n);
    } else {
      LastJump(NextKey(first), t);
      StopsAfter(key, first, t, n);
    }
  }

  /** A key that jumps to `t` and from there beyond `n`, or at once beyond `n` from bucket 0. */
  lemma StopsAfter(key: uint64, first: uint64, t: nat, n: nat)
    requires IsRounding(Exact()) && t < n < 0x8000_0000 && first == NextKey(key)
    requires t == 0 ==> NextBucket(Exact(), first, 0) >= n
    requires t > 0 ==> NextBucket(Exact(), first, 0) == t && NextBucket(Exact(), NextKey(first), t) >= n
    ensures HashOf(Exact(), key, n) == t
  {
    RoundedJumpsForward(Exact());
    StopsAt(JumpOf(Exact()), key, t, n);
  }

  lemma StopsAt(jump: Jump, key: uint64, t: nat, n: nat)
    requires Forward(jump) && t < n <= TWO_31
    requires t == 0 ==> jump(key, 0).1 >= n
    requires t > 0 ==> jump(key, 0).1 == t && jump(jump(key, 0).0, t).1 >= n
    ensures LastBelow(jump, key, 0, 0, n) == t
  {
    var (k, j) := jump(key, 0);
    assert LastBelow(jump, key, 0, 0, n) == LastBelow(jump, k, 0, j, n);
    if t > 0 {
      var (l, i) := jump(k, t);
      assert LastBelow(jump, k, 0, t, n) == LastBelow(jump, l, t, i, n);
    }
  }
}
