/** The partition planner of `merge_chunks` (src/merger/mod.rs, lines 10-12
    and 26-28): the u64 key domain split into `2^p` equal, contiguous,
    inclusive ranges `[Lb(p, i), Ub(p, i)]`. */
module Partition {
  import opened U64
  import opened Wrappers

  /** Largest partition exponent `merge_chunks` accepts (line 10). */
  const MAX_PART_EXP: nat := 64

  datatype ArgError = InvalidPartExp

  /** The argument check that runs before any file or partition work. */
  function CheckPartExp(p: nat): (r: Result<nat, ArgError>)
    ensures r.Success? <==> p <= MAX_PART_EXP
    ensures r.Success? ==> r.value == p
  {
    if p > MAX_PART_EXP then Failure(InvalidPartExp) else Success(p)
  }

  /** Number of partitions. */
  function Count(p: nat): nat
    requires p <= MAX_PART_EXP
  {
    Pow2(p)
  }

  /** Number of keys in every partition. */
  function Width(p: nat): nat
    requires p <= MAX_PART_EXP
  {
    Pow2(64 - p)
  }

  lemma CountTimesWidth(p: nat)
    requires p <= MAX_PART_EXP
    ensures Count(p) * Width(p) == BOUND
  {
    Pow2Add(p, 64 - p);
    Pow2Is64Bit();
  }

  lemma MulMonotone(a: nat, b: nat, c: nat)
    requires a <= b
    ensures a * c <= b * c
  {
  }

  lemma MulBelow(a: nat, b: nat, c: nat, n: nat)
    requires a <= b && b * c == n
    ensures 0 <= a * c <= n
  {
    MulMonotone(a, b, c);
  }

  /** First key of partition `k`, also defined for `k == Count(p)`, where it is
      one past the largest key. */
  function Floor(p: nat, k: nat): (r: nat)
    requires p <= MAX_PART_EXP && k <= Count(p)
    ensures r <= BOUND
  {
    CountTimesWidth(p);
    MulBelow(k, Count(p), Width(p), BOUND);
    k * Width(p)
  }

  /** Consecutive floors are one partition width apart. */
  lemma FloorStep(p: nat, i: nat)
    requires p <= MAX_PART_EXP && i < Count(p)
    ensures Width(p) >= 1 && Floor(p, i) + Width(p) == Floor(p, i + 1)
  {
    assert (i + 1) * Width(p) == i * Width(p) + Width(p);
  }

  /** Lower bound of partition `i`. */
  function Lb(p: nat, i: nat): u64
    requires p <= MAX_PART_EXP && i < Count(p)
  {
    FloorStep(p, i);
    Floor(p, i)
  }

  /** Upper bound of partition `i` (inclusive). */
  function Ub(p: nat, i: nat): u64
    requires p <= MAX_PART_EXP && i < Count(p)
  {
    FloorStep(p, i);
    Floor(p, i + 1) - 1
  }

  lemma DivBelow(v: nat, w: nat)
    requires w >= 1
    ensures 0 <= v / w <= v
  {
  }

  /** The partition a key belongs to: its top `p` bits. */
  function PartitionOf(p: nat, v: u64): nat
    requires p <= MAX_PART_EXP
  {
    DivBelow(v, Width(p));
    v / Width(p)
  }

  /** The ranges tile the key domain: the first starts at 0, each starts one
      past the end of the previous one, and the last ends at 2^64 - 1. */
  lemma RangesTile(p: nat)
    requires p <= MAX_PART_EXP
    ensures Lb(p, 0) == 0
    ensures forall i :: 0 <= i < Count(p) - 1 ==> Ub(p, i) + 1 == Lb(p, i + 1)
    ensures Ub(p, Count(p) - 1) == MAX
    ensures forall i :: 0 <= i < Count(p) ==> Ub(p, i) - Lb(p, i) + 1 == Width(p)
  {
    CountTimesWidth(p);
  }

  /** Euclidean division pins the quotient: `i * w <= v < (i + 1) * w`
      exactly when `v / w == i`. */
  lemma {:induction false} QuotientBetween(v: nat, w: nat, i: nat)
    requires w >= 1
    ensures i * w <= v < (i + 1) * w <==> v / w == i
  {
    var q := v / w;
    var m := v % w;
    assert v == q * w + m && 0 <= m < w;
    if q < i {
      MulMonotone(q + 1, i, w);
    } else if q > i {
      MulMonotone(i + 1, q, w);
    }
  }

  /** The ranges are a partition of the domain: a key lies in range `i`
      exactly when `i` is its partition index, so every key lies in exactly
      one range, boundary keys included. */
  lemma {:induction false} InRangeIffPartitionOf(p: nat, i: nat, v: u64)
    requires p <= MAX_PART_EXP && i < Count(p)
    ensures Lb(p, i) <= v <= Ub(p, i) <==> PartitionOf(p, v) == i
    ensures PartitionOf(p, v) < Count(p)
  {
    var w := Width(p);
    CountTimesWidth(p);
    QuotientBetween(v, w, i);
    if v / w >= Count(p) {
      MulMonotone(Count(p), v / w, w);
      QuotientBetween(v, w, v / w);
      assert false;
    }
  }

  // ---- The bounds as the source computes them, in u64 arithmetic ----

  datatype Range = Range(lb: u64, ub: u64)

  /** The loop bound `1u64 << part_exp` (line 26). */
  function SourceCount(p: nat): (r: Checked<u64>)
    requires p <= MAX_PART_EXP
    // the shift panics only at p = 64; below that it is the exact count
    ensures r.Overflow? <==> p == 64
    ensures p < 64 ==> r == Value(Count(p))
  {
    if p < 64 then ShlOne(p); Shl(1, p) else Shl(1, p)
  }

  /** Lines 27-28: `lb = (1 << (64 - p)) * i`, and `ub = (1 << (64 - p)) - 1`
      for the first partition, `lb - 1 + (1 << (64 - p))` for the others. */
  function SourceRange(p: nat, i: u64): (r: Checked<Range>)
    requires p <= MAX_PART_EXP
    // the width panics at p = 0; otherwise only an index whose range would
    // end past 2^64 - 1 overflows
    ensures r.Overflow? <==> p == 0 || (i + 1) * Width(p) > BOUND
    // otherwise it is the `i`-th block of `Width(p)` keys
    ensures r.Value? ==> r.v.lb == i * Width(p) && r.v.ub == (i + 1) * Width(p) - 1
  {
    SourceRangeArith(p, i);
    match Shl(1, 64 - p)
    case Overflow => Overflow
    case Value(w) =>
      match Mul(w, i)
      case Overflow => Overflow
      case Value(lb) =>
        if i == 0 then
          match Sub(w, 1)
          case Overflow => Overflow
          case Value(ub) => Value(Range(lb, ub))
        else
          match Sub(lb, 1)
          case Overflow => Overflow
          case Value(t) =>
            match Add(t, w)
            case Overflow => Overflow
            case Value(ub) => Value(Range(lb, ub))
  }

  /** The facts about the width that `SourceRange` relies on. */
  lemma SourceRangeArith(p: nat, i: nat)
    requires p <= MAX_PART_EXP
    ensures p >= 1 ==> Shl(1, 64 - p) == Value(Width(p)) && Width(p) * 2 <= BOUND
    ensures (i + 1) * Width(p) == i * Width(p) + Width(p) && Width(p) * i == i * Width(p)
    ensures i >= 1 ==> i * Width(p) >= Width(p)
  {
    if p >= 1 {
      ShlOne(64 - p);
      Pow2Monotone(64 - p, 63);
      Pow2Is64Bit();
      assert Pow2(64) == 2 * Pow2(63);
    }
    if i >= 1 {
      MulMonotone(1, i, Width(p));
    }
  }

  lemma ShlOne(s: nat)
    requires s < 64
    ensures Shl(1, s) == Value(Pow2(s))
  {
    Pow2Monotone(s, 63);
    Pow2Is64Bit();
    assert Pow2(64) == 2 * Pow2(63);
  }

  /** For 1 <= p <= 63 the source's u64 arithmetic neither underflows nor
      overflows, and it computes exactly `Count`, `Lb` and `Ub`. */
  lemma SourceBoundsExact(p: nat, i: nat)
    requires 1 <= p <= 63 && i < Count(p)
    ensures SourceCount(p) == Value(Count(p))
    ensures SourceRange(p, i) == Value(Range(Lb(p, i), Ub(p, i)))
  {
    ShlOne(p);
    ShlOne(64 - p);
    CountTimesWidth(p);
    MulMonotone(i + 1, Count(p), Width(p));
    var w := Width(p);
    assert Mul(w, i) == Value(i * w);
    if i > 0 {
      MulMonotone(1, i, w);
      assert Sub(i * w, 1) == Value(i * w - 1);
      assert Add(i * w - 1, w) == Value((i + 1) * w - 1);
    }
  }

  /** The argument check accepts part_exp 0 and 64, yet the source then shifts
      a u64 by 64: at p = 64 computing the loop bound panics, and at p = 0
      computing the width of the first partition panics. */
  lemma EdgeExponentsOverflow()
    ensures CheckPartExp(0).Success? && CheckPartExp(64).Success?
    ensures SourceCount(64) == Overflow
    ensures SourceCount(0) == Value(1) && SourceRange(0, 0) == Overflow
  {
  }
}
