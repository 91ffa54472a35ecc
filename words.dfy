/**
  Arithmetic on 64-bit machine words as the backend performs it: two's-complement
  wrap-around for addition, subtraction and multiplication, unsigned division, and
  comparisons that yield 0 or 1.
 */
module Words {
  import opened Structure
  import opened Wrappers

  const WORD: int := 0x1_0000_0000_0000_0000
  const MIN_I64: i64 := -0x8000_0000_0000_0000
  const MAX_I64: i64 := 0x7fff_ffff_ffff_ffff

  /** The bit pattern of `x` read as an unsigned 64-bit number. */
  function Unsigned(x: i64): (u: nat)
    ensures u < WORD
    ensures u - x == 0 || u - x == WORD
    ensures x >= 0 <==> u == x
  {
    if x < 0 then x + WORD else x
  }

  /** The signed 64-bit number whose bit pattern is the low 64 bits of `x`. */
  function Wrap(x: int): (r: i64)
    ensures (r - x) % WORD == 0
  {
    var m := x % WORD;
    assert x == (x / WORD) * WORD + m;
    if m <= MAX_I64 then m else m - WORD
  }

  function WrappingAdd(a: i64, b: i64): i64 { Wrap(a + b) }

  function WrappingSub(a: i64, b: i64): i64 { Wrap(a - b) }

  function WrappingMul(a: i64, b: i64): i64 { Wrap(a * b) }

  /** Unsigned division of the two bit patterns; `None` is the division-by-zero trap. */
  function UnsignedDiv(a: i64, b: i64): (r: Option<i64>)
    ensures r.None? <==> b == 0
    ensures r.Some? ==> Unsigned(r.value) == Unsigned(a) / Unsigned(b)
  {
    if b == 0 then None
    else
      var q := Unsigned(a) / Unsigned(b);
      DivBound(Unsigned(a), Unsigned(b));
      WrapOfUnsigned(q);
      Some(Wrap(q))
  }

  lemma DivBound(n: nat, d: nat)
    requires d > 0
    ensures 0 <= n / d <= n
  {
    var q, r := n / d, n % d;
    assert n == d * q + r && 0 <= r < d;
    assert q >= 0;
    MulNonneg(d - 1, q);
    assert d * q == q + (d - 1) * q;
  }

  lemma MulNonneg(a: nat, b: nat)
    ensures a * b >= 0
  {
  }

  /** Wrapping a number that already fits in 64 unsigned bits keeps its bit pattern. */
  lemma WrapOfUnsigned(q: int)
    requires 0 <= q < WORD
    ensures Unsigned(Wrap(q)) == q
  {
    assert q % WORD == q;
  }

  /** A comparison result as a word: exactly 1 when it holds, else 0. */
  function Flag(holds: bool): (r: i64)
    ensures r == 0 || r == 1
    ensures r == 1 <==> holds
  {
    if holds then 1 else 0
  }

  /** `Wrap` is the one 64-bit signed value congruent to its argument modulo 2^64. */
  lemma {:induction false} WrapIsCongruence(x: int, y: i64)
    ensures Wrap(x) == y <==> (y - x) % WORD == 0
  {
    var r := Wrap(x);
    if (y - x) % WORD == 0 {
      var k1, k2 := (r - x) / WORD, (y - x) / WORD;
      assert r - x == WORD * k1;
      assert y - x == WORD * k2;
      assert r - y == WORD * (k1 - k2);
      if k1 - k2 >= 1 {
        MulAtLeast(k1 - k2);
      } else if k1 - k2 <= -1 {
        MulAtLeast(k2 - k1);
      }
    }
  }

  lemma MulAtLeast(k: int)
    requires k >= 1
    ensures WORD * k >= WORD
  {
    MulNonneg(WORD, k - 1);
  }

  /** Adding one to the largest value wraps around to the smallest. */
  lemma AddWrapsAround()
    ensures WrappingAdd(MAX_I64, 1) == MIN_I64
  {
    WrapIsCongruence(MAX_I64 + 1, MIN_I64);
  }

  /** Subtraction undoes addition on 64-bit words, overflow or not. */
  lemma {:induction false} SubUndoesAdd(a: i64, b: i64)
    ensures WrappingSub(WrappingAdd(a, b), b) == a
  {
    var s := WrappingAdd(a, b);
    var k := (s - (a + b)) / WORD;
    assert s - (a + b) == WORD * k;
    assert a - (s - b) == -(WORD * k);
    assert (a - (s - b)) % WORD == 0;
    WrapIsCongruence(s - b, a);
  }

  /** Division reads both operands as unsigned: -1 divided by 2 is the largest signed value. */
  lemma DivisionIsUnsigned()
    ensures UnsignedDiv(-1, 2) == Some(MAX_I64)
  {
    assert Unsigned(-1) / Unsigned(2) == MAX_I64;
    WrapOfUnsigned(MAX_I64);
  }
}
