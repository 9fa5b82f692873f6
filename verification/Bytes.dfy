/** Bytes, little-endian integers and the result type shared by every module. */
module Bytes {

  type Byte = x: int | 0 <= x < 256

  datatype Option<+T> = None | Some(value: T)

  datatype Result<+T, +E> = Ok(value: T) | Err(error: E)

  const U64_LIMIT: nat := 0x1_0000_0000_0000_0000
  const U32_LIMIT: nat := 0x1_0000_0000

  type U64 = x: int | 0 <= x < U64_LIMIT

  function Min(a: int, b: int): int {
    if a < b then a else b
  }

  function Max(a: int, b: int): int {
    if a < b then b else a
  }

  function Zeros(n: nat): (s: seq<Byte>)
    ensures |s| == n
    ensures forall i :: 0 <= i < n ==> s[i] == 0
  {
    seq(n, _ => 0)
  }

  /** 2^n */
  function Pow2(n: nat): (p: nat)
    ensures 1 <= p
  {
    if n == 0 then 1 else 2 * Pow2(n - 1)
  }

  function Pow256(n: nat): (p: nat)
    ensures 1 <= p
  {
    if n == 0 then 1 else 256 * Pow256(n - 1)
  }

  lemma {:induction false} Pow2Add(a: nat, b: nat)
    ensures Pow2(a + b) == Pow2(a) * Pow2(b)
  {
    if a == 0 {
    } else {
      Pow2Add(a - 1, b);
    }
  }

  lemma {:induction false} Pow2Monotone(a: nat, b: nat)
    requires a <= b
    ensures Pow2(a) <= Pow2(b)
    decreases b
  {
    if a == b {
    } else {
      Pow2Monotone(a, b - 1);
    }
  }

  /** x >> n */
  function Shift(x: nat, n: nat): nat {
    if n == 0 then x else Shift(x / 2, n - 1)
  }

  lemma {:induction false} ShiftStep(x: nat, n: nat)
    ensures Shift(x, n + 1) == Shift(x, n) / 2 == Shift(x / 2, n)
  {
    if n == 0 {
    } else {
      ShiftStep(x / 2, n - 1);
    }
  }

  lemma {:induction false} ShiftMonotone(x: nat, y: nat, n: nat)
    requires x <= y
    ensures Shift(x, n) <= Shift(y, n)
    decreases n
  {
    if n == 0 {
    } else {
      ShiftMonotone(x / 2, y / 2, n - 1);
    }
  }

  lemma {:induction false} ShiftOfSuccessor(x: nat, n: nat)
    ensures Shift(x + 1, n) <= Shift(x, n) + 1
  {
    if n == 0 {
    } else if x % 2 == 0 {
    } else {
      ShiftOfSuccessor(x / 2, n - 1);
    }
  }

  /** The bits above position n vanish exactly below 2^n. */
  lemma {:induction false} ShiftIsZero(x: nat, n: nat)
    ensures Shift(x, n) == 0 <==> x < Pow2(n)
  {
    if n == 0 {
    } else {
      ShiftIsZero(x / 2, n - 1);
    }
  }

  /** Shifting is division by a power of two: the quotient q leaves a remainder below 2^n. */
  lemma {:induction false} ShiftOfSum(q: nat, r: nat, n: nat)
    requires r < Pow2(n)
    ensures Shift(q * Pow2(n) + r, n) == q
  {
    if n == 0 {
    } else {
      var half := q * Pow2(n - 1) + r / 2;
      assert q * Pow2(n) == 2 * (q * Pow2(n - 1));
      assert (q * Pow2(n) + r) / 2 == half;
      ShiftOfSum(q, r / 2, n - 1);
    }
  }

  lemma {:induction false} MulMonotone(a: int, b: int, d: nat)
    requires a <= b
    ensures a * d <= b * d
  {
  }

  lemma {:induction false} MulStrictlyMonotone(a: int, b: int, d: nat)
    requires a < b
    ensures a * d + d <= b * d
  {
    MulMonotone(a + 1, b, d);
    assert (a + 1) * d == a * d + d;
  }

  /** Euclidean division is characterised by its quotient and remainder. */
  lemma {:induction false} DivUnique(x: int, d: nat, q: int, r: int)
    requires 0 < d && x == q * d + r && 0 <= r < d
    ensures x / d == q && x % d == r
  {
    var q', r' := x / d, x % d;
    assert q' * d + r' == q * d + r;
    if q' < q {
      MulStrictlyMonotone(q', q, d);
    } else if q < q' {
      MulStrictlyMonotone(q, q', d);
    }
  }

  lemma {:induction false} DivDiv(x: nat, a: nat, b: nat)
    requires 0 < a && 0 < b
    ensures 0 < a * b
    ensures x / a / b == x / (a * b)
  {
    var y := x / a;
    var q, s := y / b, y % b;
    MulMonotone(s, b - 1, a);
    assert (b - 1) * a == b * a - a;
    assert x == (q * b + s) * a + x % a;
    assert (q * b + s) * a == q * (a * b) + s * a;
    DivUnique(x, a * b, q, s * a + x % a);
  }

  // ---------------------------------------------------------------- little endian

  /** The low `width` bytes of `n`, least significant first (higher bytes are dropped). */
  function LittleEndian(n: nat, width: nat): (b: seq<Byte>)
    ensures |b| == width
  {
    if width == 0 then [] else [n % 256] + LittleEndian(n / 256, width - 1)
  }

  function FromLittleEndian(b: seq<Byte>): nat {
    if b == [] then 0 else b[0] + 256 * FromLittleEndian(b[1..])
  }

  lemma {:induction false} FromLittleEndianBound(b: seq<Byte>)
    ensures FromLittleEndian(b) < Pow256(|b|)
  {
    if b == [] {
    } else {
      FromLittleEndianBound(b[1..]);
    }
  }

  /** Decoding inverts encoding for every value that fits the width. */
  lemma {:induction false} LittleEndianRoundTrip(n: nat, width: nat)
    requires n < Pow256(width)
    ensures FromLittleEndian(LittleEndian(n, width)) == n
  {
    if width == 0 {
    } else {
      LittleEndianRoundTrip(n / 256, width - 1);
      assert LittleEndian(n, width)[1..] == LittleEndian(n / 256, width - 1);
    }
  }

  /** Encoding inverts decoding for every byte string. */
  lemma {:induction false} LittleEndianCanonical(b: seq<Byte>)
    ensures LittleEndian(FromLittleEndian(b), |b|) == b
  {
    if b == [] {
    } else {
      LittleEndianCanonical(b[1..]);
      DivUnique(FromLittleEndian(b), 256, FromLittleEndian(b[1..]), b[0]);
      assert b == [b[0]] + b[1..];
    }
  }

  /** Byte `i` is digit `i` of the number in base 256: the least significant byte comes first. */
  lemma {:induction false} LittleEndianDigit(n: nat, width: nat, i: nat)
    requires i < width
    ensures LittleEndian(n, width)[i] == n / Pow256(i) % 256
  {
    if i > 0 {
      LittleEndianDigit(n / 256, width - 1, i - 1);
      DivDiv(n, 256, Pow256(i - 1));
    }
  }

  ghost predicate HasDigits(b: seq<Byte>, n: nat) {
    n < Pow256(|b|) && forall i :: 0 <= i < |b| ==> b[i] == n / Pow256(i) % 256
  }

  /** A byte string reads as a number exactly when its bytes are the number's digits. */
  lemma {:induction false} ReadsDigits(b: seq<Byte>, n: nat)
    ensures FromLittleEndian(b) == n <==> HasDigits(b, n)
  {
    FromLittleEndianBound(b);
    LittleEndianCanonical(b);
    forall i | 0 <= i < |b|
      ensures LittleEndian(n, |b|)[i] == n / Pow256(i) % 256
    {
      LittleEndianDigit(n, |b|, i);
    }
    if HasDigits(b, n) {
      assert b == LittleEndian(n, |b|);
      LittleEndianRoundTrip(n, |b|);
    }
  }

  lemma {:induction false} Pow256Values()
    ensures Pow256(4) == U32_LIMIT
    ensures Pow256(8) == U64_LIMIT
  {
    assert Pow256(2) == 0x1_0000;
    assert Pow256(4) == 256 * 256 * Pow256(2);
    assert Pow256(6) == 256 * 256 * Pow256(4);
    assert Pow256(8) == 256 * 256 * Pow256(6);
  }
}
