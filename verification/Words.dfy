/**
 * Machine words as bounded mathematical integers.
 *
 * The program computes on u8, u64 and byte slices.  A value of type Byte or U64 is an integer
 * inside the word's range, so arithmetic that could leave the range has to be written out and
 * every conversion back is a proof obligation.
 */
module Words {

  const U64_LIMIT := 0x1_0000_0000_0000_0000

  type Byte = b: int | 0 <= b < 256

  type U64 = n: int | 0 <= n < U64_LIMIT

  datatype Option<+T> = None | Some(value: T)

  const HASH_LEN := 32

  /** A validated 32 bytes. */
  type Hash32 = h: seq<Byte> | |h| == 32 witness Repeat(0, 32)

  function Min(a: int, b: int): int {
    if a <= b then a else b
  }

  function Max(a: int, b: int): int {
    if a <= b then b else a
  }

  /** u64 subtraction modulo 2^64. */
  function WrappingSub(a: U64, b: U64): U64 {
    (a - b) % U64_LIMIT
  }

  /** u64 addition modulo 2^64. */
  function WrappingAdd(a: U64, b: U64): U64 {
    (a + b) % U64_LIMIT
  }

  /** u64 multiplication modulo 2^64. */
  function WrappingMul(a: U64, b: U64): U64 {
    (a * b) % U64_LIMIT
  }

  /** u64 addition that sticks at the top of the range. */
  function SaturatingAdd(a: U64, b: U64): U64 {
    Min(a + b, U64_LIMIT - 1)
  }

  /** u64 subtraction that sticks at zero. */
  function SaturatingSub(a: U64, b: U64): U64 {
    Max(a - b, 0)
  }

  /** u64 multiplication that sticks at the top of the range. */
  function SaturatingMul(a: U64, b: U64): U64 {
    MulMonotone(0, a, b);
    Min(a * b, U64_LIMIT - 1)
  }

  lemma ConcatAssociates<T>(a: seq<T>, b: seq<T>, c: seq<T>)
    ensures a + (b + c) == (a + b) + c
  {
  }

  lemma TailOfConcat<T>(a: seq<T>, b: seq<T>)
    requires a != []
    ensures a + b != [] && (a + b)[0] == a[0] && (a + b)[1..] == a[1..] + b
  {
  }

  lemma SubsetSize<T>(a: set<T>, b: set<T>)
    requires a <= b
    ensures |a| <= |b|
    ensures |a| == |b| ==> a == b
    ensures |b - a| == |b| - |a|
  {
    assert b == a + (b - a);
    assert |b| == |a| + |b - a|;
  }

  /** Products keep the order of their factors. */
  lemma MulMonotone(a: nat, b: nat, c: nat)
    requires a <= b
    ensures 0 <= a * c <= b * c
  {
  }

  lemma MulAssociates(a: int, b: int, c: int)
    ensures a * b * c == a * (b * c)
  {
  }

  lemma MulDistributes(a: int, b: int, c: int)
    ensures (a + b) * c == a * c + b * c
    ensures c * (a + b) == c * a + c * b
  {
  }

  lemma RemainderPeriodic(a: int, m: int, k: int)
    requires m > 0
    ensures (a + m * k) % m == a % m
  {
    var q, r := a / m, a % m;
    assert a + m * k == m * (q + k) + r by {
      MulDistributes(q, k, m);
    }
    QuotientUnique(a + m * k, m, q + k, r);
  }

  /** Quotient and remainder are the only ones there are. */
  lemma QuotientUnique(n: int, m: int, q: int, r: int)
    requires 0 <= r < m && n == m * q + r
    ensures n / m == q && n % m == r
  {
    var p := n / m - q;
    assert n == m * (n / m) + n % m;
    MulDistributes(n / m, -q, m);
    assert m * p == r - n % m;
    MultipleIsFar(m, p);
  }

  /** A multiple of m that is not zero is at least m away from it. */
  lemma MultipleIsFar(m: int, p: int)
    requires m > 0
    ensures p == 0 || m * p >= m || m * p <= -m
  {
    if p > 0 {
      MulMonotone(1, p, m);
    } else if p < 0 {
      MulMonotone(1, -p, m);
    }
  }

  /** The same byte n times over. */
  function Repeat(b: Byte, n: nat): (s: seq<Byte>)
    ensures |s| == n
    ensures forall i :: 0 <= i < n ==> s[i] == b
  {
    seq(n, _ => b)
  }

  function Pow2(n: nat): (p: nat)
    ensures p >= 1
  {
    if n == 0 then 1 else 2 * Pow2(n - 1)
  }

  lemma {:induction false} Pow2Adds(m: nat, n: nat)
    ensures Pow2(m + n) == Pow2(m) * Pow2(n)
  {
    if n != 0 {
      Pow2Adds(m, n - 1);
      assert Pow2(m + n) == 2 * Pow2(m + (n - 1));
      assert Pow2(m) * (2 * Pow2(n - 1)) == 2 * (Pow2(m) * Pow2(n - 1));
    }
  }

  lemma Pow2Of7()
    ensures Pow2(7) == 128
  {
    assert Pow2(3) == 8;
    assert Pow2(5) == 32;
  }

  /** Bitwise or of two unsigned integers, bit by bit from the low end. */
  function BitOr(a: nat, b: nat): nat
    decreases a + b
  {
    if a == 0 then b
    else if b == 0 then a
    else (if a % 2 + b % 2 > 0 then 1 else 0) + 2 * BitOr(a / 2, b / 2)
  }

  /** Left shift of a u64: bits pushed past bit 63 are lost. */
  function Shl64(x: U64, shift: nat): U64
  {
    (x * Pow2(shift)) % U64_LIMIT
  }

  /** Or-ing in bits that all lie above the ones already present is addition. */
  lemma {:induction false} OrAboveIsPlus(a: nat, m: nat, s: nat, b: nat)
    requires a < Pow2(s) && b == m * Pow2(s)
    ensures BitOr(a, b) == a + b
  {
    if s != 0 && a != 0 && b != 0 {
      var half := m * Pow2(s - 1);
      assert b == 2 * half;
      OrAboveIsPlus(a / 2, m, s - 1, half);
    }
  }
}
