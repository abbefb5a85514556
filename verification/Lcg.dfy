/**
 * `Random` of Random.cpp: one 64-bit word, replaced by every `Next()`. The generator has
 * full period: from any seed it visits all 2^64 words once before it returns.
 *
 * The proof goes by doubling. Modulo 2^(k+1), 2^k steps add exactly 2^k, whatever the
 * state; so each further bit doubles the period.
 */
module Lcg {
  import opened MachineInt

  const MULTIPLIER := 6364136223846793005

  function Pow2(k: nat): (p: nat)
    ensures p >= 1
  {
    if k == 0 then 1 else 2 * Pow2(k - 1)
  }

  const WORD: nat := 0x1_0000_0000_0000_0000

  /** One step on unbounded integers, before the word wraps. */
  function Step(x: int): int {
    MULTIPLIER * x + 1
  }

  function Steps(n: nat, x: int): int {
    if n == 0 then x else Step(Steps(n - 1, x))
  }

  /** One step of the 64-bit generator. */
  function Next64(x: int): int {
    Step(x) % WORD
  }

  function Next64s(n: nat, x: int): int {
    if n == 0 then x else Next64(Next64s(n - 1, x))
  }

  class Random {
    var num: int

    ghost predicate Valid()
      reads this
    {
      0 <= num < WORD
    }

    constructor (seed: int)
      requires 0 <= seed < WORD
      ensures Valid() && num == seed
    {
      num := seed;
    }

    method Next() returns (r: int)
      requires Valid()
      modifies this
      ensures Valid() && r == num == Next64(old(num))
    {
      num := (MULTIPLIER * num + 1) % WORD;
      r := num;
    }
  }

  /** The first states from seed 0, and one that wraps. */
  lemma KnownStates()
    ensures Next64(0) == 1 && Next64(1) == 6364136223846793006
    ensures Next64(3) == 645664597830827400
  {
  }

  // ----- Powers of two -----

  lemma {:induction false} Pow2Add(m: nat, n: nat)
    ensures Pow2(m + n) == Pow2(m) * Pow2(n)
  {
    if m > 0 {
      Pow2Add(m - 1, n);
      assert Pow2(m + n) == 2 * Pow2(m - 1 + n);
      assert 2 * (Pow2(m - 1) * Pow2(n)) == (2 * Pow2(m - 1)) * Pow2(n);
    }
  }

  lemma Doubled(m: nat, p: nat)
    requires Pow2(m) == p
    ensures Pow2(2 * m) == p * p
  {
    Pow2Add(m, m);
  }

  lemma WordIsPow2()
    ensures Pow2(64) == WORD
  {
    assert Pow2(4) == 16;
    hide Pow2;
    Doubled(4, 16);
    Doubled(8, 0x100);
    Doubled(16, 0x1_0000);
    Doubled(32, 0x1_0000_0000);
  }

  // ----- Doubling -----

  lemma {:induction false} StepsAdd(m: nat, n: nat, x: int)
    ensures Steps(m + n, x) == Steps(m, Steps(n, x))
  {
    if m > 0 {
      StepsAdd(m - 1, n, x);
    }
  }

  /** `2^k` steps are the map `(1 + 4 * 2^k * Slope(k)) * x + 2^k * (1 + 2 * Shift(k))`. */
  ghost function Slope(k: nat): int {
    if k == 0 then MULTIPLIER / 4
    else Slope(k - 1) + 2 * Pow2(k - 1) * Slope(k - 1) * Slope(k - 1)
  }

  ghost function Shift(k: nat): int {
    if k == 0 then 0
    else
      var w := Pow2(k - 1) * Slope(k - 1);
      w + Shift(k - 1) + 2 * w * Shift(k - 1)
  }

  ghost function Affine(k: nat, x: int): int {
    (1 + 4 * Pow2(k) * Slope(k)) * x + Pow2(k) * (1 + 2 * Shift(k))
  }

  lemma {:induction false} StepsArePow2Affine(k: nat, x: int)
    ensures Steps(Pow2(k), x) == Affine(k, x)
  {
    if k == 0 {
      assert Steps(1, x) == Step(Steps(0, x));
    } else {
      hide Steps;
      var y := Steps(Pow2(k - 1), x);
      StepsAdd(Pow2(k - 1), Pow2(k - 1), x);
      StepsArePow2Affine(k - 1, x);
      StepsArePow2Affine(k - 1, y);
      Square(Pow2(k - 1), Slope(k - 1), Shift(k - 1), x);
    }
  }

  /** The affine map of one level, applied twice, is that of the next. */
  lemma Square(p: int, a: int, c: int, x: int)
    ensures var y := (1 + 4 * p * a) * x + p * (1 + 2 * c);
            (1 + 4 * p * a) * y + p * (1 + 2 * c)
            == (1 + 4 * (2 * p) * (a + 2 * p * a * a)) * x + 2 * p * (1 + 2 * (p * a + c + 2 * (p * a) * c))
  {
  }

  /** The heart of the matter: `2^k` steps change nothing below bit `k`, and always flip bit `k`. */
  lemma Jump(k: nat, x: int) returns (q: int)
    ensures Steps(Pow2(k), x) == x + Pow2(k) + (2 * Pow2(k)) * q
  {
    hide Steps, Pow2, Slope, Shift;
    StepsArePow2Affine(k, x);
    q := 2 * Slope(k) * x + Shift(k);
    JumpAlgebra(Pow2(k), Slope(k), Shift(k), x);
  }

  lemma JumpAlgebra(p: int, a: int, c: int, x: int)
    ensures (1 + 4 * p * a) * x + p * (1 + 2 * c) == x + p + (2 * p) * (2 * a * x + c)
  {
  }

  // ----- No repetition, and full cover, bit by bit -----

  /** The state `2^k` steps earlier. */
  lemma Folded(k: nat, x: int, i: nat) returns (q: int)
    requires i >= Pow2(k)
    ensures Steps(i, x) == Steps(i - Pow2(k), x) + Pow2(k) + (2 * Pow2(k)) * q
  {
    StepsAdd(Pow2(k), i - Pow2(k), x);
    q := Jump(k, Steps(i - Pow2(k), x));
  }

  lemma Gather(p: int, t: int, u: int, v: int)
    ensures p * (2 * t + 2 * u - 2 * v) == (2 * p) * t + (2 * p) * u - (2 * p) * v
    ensures p * (2 * t - 1 - 2 * u) == (2 * p) * t - p - (2 * p) * u
  {
  }

  /** States fewer than `2^k` steps apart differ in their low `k` bits. */
  lemma {:induction false} Distinct(k: nat, x: int, i: nat, j: nat, t: int)
    requires i < Pow2(k) && j < Pow2(k)
    requires Steps(j, x) - Steps(i, x) == Pow2(k) * t
    ensures i == j
    decreases k, 1
  {
    hide Steps;
    if k > 0 {
      var p := Pow2(k - 1);
      if i < p && j < p {
        Gather(p, t, 0, 0);
        Distinct(k - 1, x, i, j, 2 * t);
      } else if i >= p && j >= p {
        var qi := Folded(k - 1, x, i);
        var qj := Folded(k - 1, x, j);
        Gather(p, t, qi, qj);
        Distinct(k - 1, x, i - p, j - p, 2 * t + 2 * qi - 2 * qj);
      } else if i < p {
        OppositeHalves(k - 1, x, i, j, t);
      } else {
        assert Steps(i, x) - Steps(j, x) == (2 * p) * -t;
        OppositeHalves(k - 1, x, j, i, -t);
      }
    }
  }

  /** Two states in opposite halves of the period cannot agree. */
  lemma OppositeHalves(k: nat, x: int, i: nat, j: nat, t: int)
    requires i < Pow2(k) <= j < 2 * Pow2(k)
    ensures Steps(j, x) - Steps(i, x) != (2 * Pow2(k)) * t
    decreases k, 2
  {
    hide Steps, Pow2;
    var p := Pow2(k);
    var q := Folded(k, x, j);
    if Steps(j, x) - Steps(i, x) == (2 * p) * t {
      var u := 2 * t - 1 - 2 * q;
      Gather(p, t, q, 0);
      Distinct(k, x, i, j - p, u);
      Nonzero(p, u);
    }
  }

  lemma Nonzero(p: int, u: int)
    requires p > 0 && u % 2 == 1
    ensures p * u != 0
  {
  }

  /** Every pattern of the low `k` bits turns up within `2^k` steps. */
  lemma {:induction false} Reached(k: nat, x: int, v: int) returns (i: nat, t: int)
    ensures i < Pow2(k) && Steps(i, x) == v + Pow2(k) * t
  {
    hide Steps;
    if k == 0 {
      i, t := 0, x - v;
      StartState(x);
    } else {
      var p := Pow2(k - 1);
      i, t := Reached(k - 1, x, v);
      if t % 2 == 0 {
        t := t / 2;
        assert p * (2 * t) == (2 * p) * t;
      } else {
        var u := t / 2;
        i := i + p;
        var q := Folded(k - 1, x, i);
        assert p * (2 * u + 1) + p + (2 * p) * q == (2 * p) * (u + 1 + q);
        t := u + 1 + q;
      }
    }
  }

  lemma StartState(x: int)
    ensures Steps(0, x) == x
  {
  }

  // ----- The 64-bit generator -----

  lemma {:induction false} WrapsOnce(n: nat, x: int)
    requires 0 <= x < WORD
    ensures Next64s(n, x) == Steps(n, x) % WORD
  {
    if n > 0 {
      WrapsOnce(n - 1, x);
      var s := Steps(n - 1, x);
      StepModWord(s);
    }
  }

  lemma StepModWord(s: int)
    ensures Step(s % WORD) % WORD == Step(s) % WORD
  {
    var q, r := s / WORD, s % WORD;
    var y := Step(r);
    assert Step(s) == (MULTIPLIER * q + y / WORD) * WORD + y % WORD;
    DivUnique(Step(s), WORD, MULTIPLIER * q + y / WORD, y % WORD);
  }

  /** The first 2^64 states are pairwise distinct. */
  lemma NoRepetition(seed: int, i: nat, j: nat)
    requires 0 <= seed < WORD && i < j < WORD
    ensures Next64s(i, seed) != Next64s(j, seed)
  {
    hide Steps, Next64s, Pow2;
    WrapsOnce(i, seed);
    WrapsOnce(j, seed);
    WordIsPow2();
    if Next64s(i, seed) == Next64s(j, seed) {
      var t := Steps(j, seed) / WORD - Steps(i, seed) / WORD;
      Distinct(64, seed, i, j, t);
    }
  }

  /** Every 64-bit value is among them. */
  lemma FullCover(seed: int, v: int) returns (i: nat)
    requires 0 <= seed < WORD && 0 <= v < WORD
    ensures i < WORD && Next64s(i, seed) == v
  {
    hide Steps, Next64s, Pow2;
    var t;
    i, t := Reached(64, seed, v);
    WordIsPow2();
    WrapsOnce(i, seed);
    DivUnique(Steps(i, seed), WORD, t, v);
  }

  /** Step 2^64 is the seed again. */
  lemma ReturnsToSeed(seed: int)
    requires 0 <= seed < WORD
    ensures Next64s(WORD, seed) == seed
  {
    hide Steps, Next64s, Pow2;
    WordIsPow2();
    var q := Jump(64, seed);
    WrapsOnce(WORD, seed);
    DivUnique(Steps(WORD, seed), WORD, 1 + 2 * q, seed);
  }

  /** The price of the power-of-two modulus: the low `k` bits alone repeat after `2^k` calls. */
  lemma LowBitsCycle(k: nat, seed: int, n: nat)
    requires 0 <= seed < WORD && k <= 64
    ensures Next64s(n + Pow2(k), seed) % Pow2(k) == Next64s(n, seed) % Pow2(k)
  {
    hide Steps, Next64s, Pow2;
    Pow2Add(k, 64 - k);
    WordIsPow2();
    WrapsOnce(n, seed);
    WrapsOnce(n + Pow2(k), seed);
    var q := Folded(k, seed, n + Pow2(k));
    LowBits(Steps(n, seed), Pow2(k), Pow2(64 - k));
    LowBits(Steps(n + Pow2(k), seed), Pow2(k), Pow2(64 - k));
    LowBitsAdd(Steps(n, seed), Pow2(k), q);
  }

  lemma LowBits(s: int, p: nat, m: nat)
    requires p >= 1 && m >= 1 && p * m > 0
    ensures (s % (p * m)) % p == s % p
  {
    var q, r := s / (p * m), s % (p * m);
    var q', r' := r / p, r % p;
    assert s == (m * q + q') * p + r' by {
      assert s == (p * m) * q + r && r == p * q' + r';
      assert (p * m) * q == (m * q) * p;
    }
    DivUnique(s, p, m * q + q', r');
  }

  lemma LowBitsAdd(s: int, p: nat, q: int)
    requires p >= 1
    ensures (s + p + (2 * p) * q) % p == s % p
  {
    assert s + p + (2 * p) * q == (s / p + 1 + 2 * q) * p + s % p;
    DivUnique(s + p + (2 * p) * q, p, s / p + 1 + 2 * q, s % p);
  }
}
