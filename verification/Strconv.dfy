/** Decimal text of 64-bit numbers, as the decoders use it to convert between numbers and strings. */
module Strconv {
  import opened Words

  const ZERO: byte := 48
  const MINUS: byte := 45
  const PLUS: byte := 43

  predicate IsDigit(c: byte) { ZERO <= c <= ZERO + 9 }

  function Digits(n: nat): (s: bytes)
    ensures |s| > 0 && forall i :: 0 <= i < |s| ==> IsDigit(s[i])
  {
    if n < 10 then [ZERO + n] else Digits(n / 10) + [ZERO + n % 10]
  }

  function Itoa(x: int): bytes {
    if x < 0 then [MINUS] + Digits(-x) else Digits(x)
  }

  /** The outcome of parsing an unsigned number: its value, or why there is none. */
  datatype Unsigned = Number(n: uint64) | SyntaxError | RangeError

  function ParseDigits(s: bytes, n: uint64): Unsigned {
    if s == [] then Number(n)
    else if !IsDigit(s[0]) then SyntaxError
    else
      var m := n * 10 + (s[0] - ZERO);
      if m >= TWO_64 then RangeError else ParseDigits(s[1..], m)
  }

  function ParseUnsigned(s: bytes): Unsigned {
    if s == [] then SyntaxError else ParseDigits(s, 0)
  }

  /** The value the callers use: they ignore the error and take what comes with it. */
  function ParseUint(s: bytes): uint64 {
    match ParseUnsigned(s)
    case Number(n) => n
    case SyntaxError => 0
    case RangeError => TWO_64 - 1
  }

  function ParseInt(s: bytes): (x: int)
    ensures -TWO_63 <= x < TWO_63
  {
    var negative := s != [] && s[0] == MINUS;
    match ParseUnsigned(if s != [] && (s[0] == MINUS || s[0] == PLUS) then s[1..] else s)
    case SyntaxError => 0
    case RangeError => if negative then -TWO_63 else TWO_63 - 1
    case Number(n) =>
      var m: int := n;
      if negative then (if m > TWO_63 then -TWO_63 else -m)
      else if m >= TWO_63 then TWO_63 - 1 else m
  }

  lemma {:induction false} ParseDigitsSnoc(s: bytes, n: uint64, c: byte)
    requires ParseDigits(s, n).Number? && IsDigit(c)
    ensures var m := ParseDigits(s, n).n * 10 + (c - ZERO);
            ParseDigits(s + [c], n) == if m >= TWO_64 then RangeError else Number(m)
  {
    if s == [] {
      assert ([c])[1..] == [];
    } else {
      ParseDigitsSnoc(s[1..], n * 10 + (s[0] - ZERO), c);
      assert (s + [c])[1..] == s[1..] + [c];
    }
  }

  lemma {:induction false} DigitsRoundTrip(n: uint64)
    ensures ParseDigits(Digits(n), 0) == Number(n)
  {
    if n < 10 {
      assert Digits(n)[1..] == [];
    } else {
      DigitsRoundTrip(n / 10);
      ParseDigitsSnoc(Digits(n / 10), 0, ZERO + n % 10);
    }
  }

  /** Text made from a number reads back as that number, signed or not. */
  lemma TextRoundTrip(x: int)
    ensures -TWO_63 <= x < TWO_63 ==> ParseInt(Itoa(x)) == x
    ensures 0 <= x < TWO_64 ==> ParseUint(Itoa(x)) == x
  {
    if -TWO_63 <= x < 0 {
      DigitsRoundTrip(-x);
      assert Itoa(x)[1..] == Digits(-x);
    } else if 0 <= x < TWO_64 {
      DigitsRoundTrip(x);
    }
  }

  // ----- which texts stand for which numbers

  predicate AllDigits(s: bytes) {
    forall i :: 0 <= i < |s| ==> 48 <= s[i] <= 57
  }

  /** The number a row of decimal digits stands for. */
  function Decimal(s: bytes): nat
    requires AllDigits(s)
  {
    if s == [] then 0 else 10 * Decimal(s[..|s| - 1]) + (s[|s| - 1] - 48)
  }

  lemma {:induction false} DecimalPrefix(s: bytes, k: nat)
    requires AllDigits(s) && k <= |s|
    ensures Decimal(s[..k]) <= Decimal(s)
    decreases |s|
  {
    if k < |s| {
      var front := s[..|s| - 1];
      assert front[..k] == s[..k];
      DecimalPrefix(front, k);
    } else {
      assert s[..k] == s;
    }
  }

  /** Digits still to be parsed, behind some that were: the whole number, or a range error once it is too large. */
  lemma {:induction false} ParsesRest(s: bytes, k: nat)
    requires AllDigits(s) && k <= |s| && Decimal(s[..k]) < TWO_64
    ensures ParseDigits(s[k..], Decimal(s[..k])) == if Decimal(s) < TWO_64 then Number(Decimal(s)) else RangeError
    decreases |s| - k
  {
    if k == |s| {
      assert s[..k] == s && s[k..] == [];
    } else {
      var next := k + 1;
      assert s[..next][..k] == s[..k] && s[k..][1..] == s[next..];
      DecimalPrefix(s, next);
      if Decimal(s[..next]) < TWO_64 {
        ParsesRest(s, next);
      }
    }
  }

  /** Decimal text reads as its number, with or without a sign; too large a number as the largest there is. */
  lemma ParsesDecimal(s: bytes)
    requires AllDigits(s) && s != []
    ensures ParseUint(s) == if Decimal(s) < TWO_64 then Decimal(s) else TWO_64 - 1
    ensures ParseInt(s) == ParseInt([43] + s) == if Decimal(s) < TWO_63 then Decimal(s) else TWO_63 - 1
    ensures var d: int := Decimal(s); ParseInt([45] + s) == if d <= TWO_63 then -d else -TWO_63
  {
    assert s[..0] == [] && s[0..] == s;
    ParsesRest(s, 0);
    assert ([43] + s)[1..] == s && ([45] + s)[1..] == s;
  }

  /** Text that begins with anything else, and no text at all, reads as 0. */
  lemma ParsesNothing(s: bytes)
    requires s == [] || !(48 <= s[0] <= 57)
    ensures ParseUint(s) == 0
    ensures s == [] || (s[0] != 43 && s[0] != 45) || |s| == 1 ==> ParseInt(s) == 0
  {
  }

  /** The text of a number is its decimal text, with a minus in front of a negative one and no needless zeros. */
  lemma ItoaDecimal(x: int)
    ensures x >= 0 ==> AllDigits(Itoa(x)) && Decimal(Itoa(x)) == x && (Itoa(x)[0] == 48 ==> x == 0)
    ensures x < 0 ==> Itoa(x) == [45] + Itoa(-x)
  {
    if x >= 0 {
      DigitsDecimal(x);
    }
  }

  lemma {:induction false} DigitsDecimal(n: nat)
    ensures AllDigits(Digits(n)) && Decimal(Digits(n)) == n && (Digits(n)[0] == 48 ==> n == 0)
  {
    if n < 10 {
      assert Digits(n)[..0] == [];
    } else {
      DigitsDecimal(n / 10);
      assert Digits(n)[..|Digits(n)| - 1] == Digits(n / 10);
    }
  }
}
