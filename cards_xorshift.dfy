/** The 13/17/5 xor-shift pseudo-random generator of src/bin/cards/xorshift.rs on a 64-bit `usize`. */
module XorShiftRng {

  /** `usize` on a 64-bit target, as an integer. */
  type Usize = x: int | 0 <= x < 0x1_0000_0000_0000_0000

  /** The three in-place updates of `next`: `x ^= x << 13`, `x ^= x >> 17`, `x ^= x << 5`, bits shifted
      out of the word being lost. */
  function XorShl13(x: bv64): bv64 { x ^ (x << 13) }
  function XorShr17(x: bv64): bv64 { x ^ (x >> 17) }
  function XorShl5(x: bv64): bv64 { x ^ (x << 5) }

  /** The state update of `next`. */
  function Advance(x: bv64): bv64 {
    XorShl5(XorShr17(XorShl13(x)))
  }

  /** Each update sends only zero to zero. */
  lemma XorShl13Zero(x: bv64)
    ensures XorShl13(x) == 0 <==> x == 0
  {
  }

  lemma XorShr17Zero(x: bv64)
    ensures XorShr17(x) == 0 <==> x == 0
  {
  }

  lemma XorShl5Zero(x: bv64)
    ensures XorShl5(x) == 0 <==> x == 0
  {
  }

  /** Zero is a fixed point of `next`, and the only state it sends to zero: a generator seeded with a
      non-zero value never produces 0. */
  lemma ZeroOnlyFromZero(x: bv64)
    ensures Advance(x) == 0 <==> x == 0
  {
    XorShl13Zero(x);
    XorShr17Zero(XorShl13(x));
    XorShl5Zero(XorShr17(XorShl13(x)));
  }

  /** `n` calls of `next` from state `x`. */
  function AdvanceN(x: bv64, n: nat): bv64
    decreases n, x
  {
    if n == 0 then x else AdvanceN(Advance(x), n - 1)
  }

  /** A generator seeded with a non-zero value is never in state zero, however often it is advanced. */
  lemma {:induction false} AdvanceNNonZero(x: bv64, n: nat)
    requires x != 0
    ensures AdvanceN(x, n) != 0
    decreases n
  {
    if n > 0 {
      ZeroOnlyFromZero(x);
      AdvanceNNonZero(Advance(x), n - 1);
    }
  }

  /** The word `x` reduced modulo `m`, as an integer: what `next() % m` yields. */
  function Below(x: bv64, m: nat): (r: nat)
    requires m > 0
    ensures r < m
  {
    Reduce(x as int, m)
  }

  /** `v` reduced modulo `m` by repeated subtraction. */
  function Reduce(v: nat, m: nat): (r: nat)
    requires m > 0
    ensures r < m
    decreases v
  {
    if v < m then v else Reduce(v - m, m)
  }

  /** Repeated subtraction computes the remainder. */
  lemma {:induction false} ReduceIsMod(v: nat, m: nat)
    requires m > 0
    ensures Reduce(v, m) == v % m
    decreases v
  {
    if v >= m {
      ReduceIsMod(v - m, m);
      ModSub(v, m);
    }
  }

  /** Taking away one modulus leaves the remainder unchanged. */
  lemma ModSub(v: int, m: int)
    requires m > 0 && v >= m
    ensures v % m == (v - m) % m
  {
    var q := (v - m) / m;
    assert v - m == q * m + (v - m) % m;
    assert v == (q + 1) * m + (v - m) % m;
    ModUnique(v, q + 1, m, (v - m) % m);
  }

  /** Euclidean division has one remainder: any `q * m + r` with `0 <= r < m` leaves `r`. */
  lemma ModUnique(v: int, q: int, m: int, r: int)
    requires m > 0 && 0 <= r < m && v == q * m + r
    ensures v % m == r
  {
    var q', r' := v / m, v % m;
    assert q * m + r == q' * m + r';
    assert (q - q') * m == r' - r;
    if q > q' {
      MulAtLeast(q - q', m);
    } else if q < q' {
      MulAtLeast(q' - q, m);
    }
  }

  lemma MulAtLeast(d: int, m: int)
    requires d >= 1 && m > 0
    ensures d * m >= m
  {
    assert d * m == (d - 1) * m + m;
  }

  class XorShift {
    var state: bv64

    /** `from_seed`: the state is the seed itself. */
    constructor FromSeed(seed: bv64)
      ensures state == seed
    {
      state := seed;
    }

    /** `next`: advances the state once and returns the new state. */
    method Next() returns (r: bv64)
      modifies this
      ensures state == Advance(old(state)) && r == state
    {
      var x := state;
      x := XorShl13(x);
      x := XorShr17(x);
      x := XorShl5(x);
      state := x;
      r := x;
    }

    /** `gen_range(a, b)`: one call of `next`, reduced into `[a, b)`. Rust panics on `a == b` (division
        by zero) and on `b < a` (subtraction overflow), so `a < b` is required. */
    method GenRange(a: Usize, b: Usize) returns (r: Usize)
      requires a < b
      modifies this
      ensures state == Advance(old(state))
      ensures a <= r < b && r == a + Below(state, b - a)
    {
      var x := Next();
      r := a + (x as int) % (b - a);
      ReduceIsMod(x as int, b - a);
    }
  }
}
