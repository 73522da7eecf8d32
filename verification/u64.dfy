/** Unsigned 64-bit integers and the arithmetic Rust performs on them in a
    debug build, where an operation whose result does not fit panics. */
module U64 {

  const BOUND: nat := 0x1_0000_0000_0000_0000
  const MAX: nat := BOUND - 1

  type u64 = x: int | 0 <= x < BOUND

  function Pow2(n: nat): (r: nat)
    ensures r >= 1
  {
    if n == 0 then 1 else 2 * Pow2(n - 1)
  }

  lemma {:induction false} Pow2Add(a: nat, b: nat)
    ensures Pow2(a + b) == Pow2(a) * Pow2(b)
    decreases a
  {
    if a > 0 {
      Pow2Add(a - 1, b);
      assert Pow2(a + b) == 2 * Pow2(a - 1 + b);
    }
  }

  lemma {:induction false} Pow2Monotone(a: nat, b: nat)
    requires a <= b
    ensures Pow2(a) <= Pow2(b)
    decreases b - a
  {
    if a < b {
      Pow2Monotone(a, b - 1);
    }
  }

  lemma Pow2Is64Bit()
    ensures Pow2(64) == BOUND
  {
    assert Pow2(1) == 2;
    Pow2Add(1, 1);
    Pow2Add(2, 2);
    Pow2Add(4, 4);
    assert Pow2(8) == 256;
    Pow2Add(8, 8);
    assert Pow2(16) == 0x1_0000;
    Pow2Add(16, 16);
    assert Pow2(32) == 0x1_0000_0000;
    Pow2Add(32, 32);
  }

  /** The outcome of a checked operation: a value, or the panic a debug build
      raises ("attempt to ... with overflow"). */
  datatype Checked<T> = Value(v: T) | Overflow {
    predicate IsFailure() { Overflow? }

    function PropagateFailure<U>(): Checked<U>
      requires Overflow?
    {
      Overflow
    }

    function Extract(): T
      requires Value?
    {
      v
    }
  }

  /** `x << s`: panics when the shift amount is not below the bit width;
      bits shifted past bit 63 are discarded. */
  function Shl(x: u64, s: nat): (r: Checked<u64>)
    ensures r.Overflow? <==> s >= 64
    // when no set bit is shifted out, the result is x * 2^s
    ensures s < 64 && x * Pow2(s) < BOUND ==> r == Value(x * Pow2(s))
  {
    if s >= 64 then Overflow else Value((x * Pow2(s)) % BOUND)
  }

  /** `a + b`: panics exactly when the sum does not fit in 64 bits. */
  function Add(a: u64, b: u64): (r: Checked<u64>)
    ensures r.Overflow? <==> a + b >= BOUND
    ensures r.Value? ==> r.v == a + b
  {
    if a + b <= MAX then Value(a + b) else Overflow
  }

  /** `a - b`: panics exactly when the difference is negative. */
  function Sub(a: u64, b: u64): (r: Checked<u64>)
    ensures r.Overflow? <==> a < b
    ensures r.Value? ==> r.v == a - b
  {
    if b <= a then Value(a - b) else Overflow
  }

  /** `a * b`: panics exactly when the product does not fit in 64 bits. */
  function Mul(a: u64, b: u64): (r: Checked<u64>)
    ensures r.Overflow? <==> a * b >= BOUND
    ensures r.Value? ==> r.v == a * b
  {
    if a * b <= MAX then Value(a * b) else Overflow
  }
}
