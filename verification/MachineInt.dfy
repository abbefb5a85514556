/** The C++ integer operators and conversions the models need, over unbounded integers. */
module MachineInt {

  /** `a / b` of C++: rounds toward zero. */
  function TruncDiv(a: int, b: int): int
    requires b > 0
  {
    if a >= 0 then a / b else -((-a) / b)
  }

  /** `a % b` of C++: takes the sign of `a`. */
  function TruncMod(a: int, b: int): int
    requires b > 0
  {
    a - TruncDiv(a, b) * b
  }

  /** The sign of a C++ remainder differs from Dafny's, but not whether it is zero. */
  lemma TruncModZero(a: int, b: int)
    requires b > 0
    ensures TruncMod(a, b) == 0 <==> a % b == 0
  {
    if a < 0 {
      var q, r := (-a) / b, (-a) % b;
      assert -a == q * b + r;
      if r == 0 {
        DivUnique(a, b, -q, 0);
      } else {
        assert a == (-q - 1) * b + (b - r);
        DivUnique(a, b, -q - 1, b - r);
      }
    } else {
      assert a == a / b * b + a % b;
    }
  }

  /** Conversion to a 16-bit signed integer (two's complement). */
  function ToInt16(x: int): int {
    (x + 0x8000) % 0x1_0000 - 0x8000
  }

  /** Conversion to a 32-bit signed integer. */
  function ToInt32(x: int): int {
    (x + 0x8000_0000) % 0x1_0000_0000 - 0x8000_0000
  }

  /** Conversion to a 32-bit unsigned integer. */
  function ToUint32(x: int): nat {
    x % 0x1_0000_0000
  }

  function Max(a: int, b: int): int {
    if a >= b then a else b
  }

  function Min(a: int, b: int): int {
    if a <= b then a else b
  }

  /**
   * The era idiom `(y >= 0 ? y : y - (n - 1)) / n` under truncating division
   * is floor division.
   */
  lemma EraIsFloor(y: int, n: int)
    requires n > 0
    ensures TruncDiv(if y >= 0 then y else y - (n - 1), n) == y / n
  {
    if y < 0 {
      var q := y / n;
      var r := y % n;
      assert y == q * n + r;
      assert -(y - (n - 1)) == (-q) * n + (n - 1 - r);
      DivUnique(-(y - (n - 1)), n, -q, n - 1 - r);
    }
  }

  lemma DivUnique(a: int, n: int, q: int, r: int)
    requires n > 0 && 0 <= r < n && a == q * n + r
    ensures a / n == q && a % n == r
  {
    var q', r' := a / n, a % n;
    assert (q - q') * n == r' - r;
    if q > q' {
      assert (q - q') * n >= n by { MulAtLeast(q - q', n); }
    } else if q < q' {
      assert (q' - q) * n >= n by { MulAtLeast(q' - q, n); }
    }
  }

  lemma FloorStep(y: int, n: int)
    requires n > 0
    ensures y / n == (y - 1) / n + (if y % n == 0 then 1 else 0)
  {
    var q, r := y / n, y % n;
    if r == 0 {
      DivUnique(y - 1, n, q - 1, n - 1);
    } else {
      DivUnique(y - 1, n, q, r - 1);
    }
  }

  lemma MulAtLeast(k: int, n: int)
    requires k >= 1 && n >= 0
    ensures k * n >= n
  {
    assert k * n == (k - 1) * n + n;
  }
}
