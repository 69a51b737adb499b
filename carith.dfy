/**
 * C++ integer division and remainder on `int`: the quotient is truncated
 * toward zero and the remainder takes the sign of the dividend. Dafny's own
 * `/` and `%` are Euclidean; the two agree on non-negative operands.
 */
module CArith {

  function Abs(x: int): nat {
    if x < 0 then -x else x
  }

  /** `a / b` in C++: the quotient of the magnitudes, negated when the signs differ. */
  function CDiv(a: int, b: int): int
    requires b != 0
  {
    var q := Abs(a) / Abs(b);
    if (a < 0) == (b < 0) then q else -q
  }

  /** `a % b` in C++: the remainder of the magnitudes, with the sign of `a`. */
  function CMod(a: int, b: int): (r: int)
    requires b != 0
    ensures a >= 0 ==> 0 <= r < Abs(b)
    ensures a < 0 ==> -(Abs(b) as int) < r <= 0
  {
    var r := Abs(a) % Abs(b);
    if a < 0 then -r else r
  }

  /** The quotient and the remainder put `a` back together, as C++ guarantees. */
  lemma DivModIdentity(a: int, b: int)
    requires b != 0
    ensures a == CDiv(a, b) * b + CMod(a, b)
  {
    var m := Abs(b);
    var q, r := Abs(a) / m, Abs(a) % m;
    assert Abs(a) == q * m + r;
    if b < 0 {
      NegateFactor(CDiv(a, b), m);
    }
    if (a < 0) != (b < 0) {
      NegateFactor(q, m);
    }
  }

  lemma NegateFactor(x: int, y: int)
    ensures x * -y == -(x * y) && -x * y == -(x * y)
  {
  }

  /** On non-negative operands C++ and Dafny division agree. */
  lemma NonNegativeAgree(a: int, b: int)
    requires a >= 0 && b > 0
    ensures CDiv(a, b) == a / b && CMod(a, b) == a % b
  {
  }

  /** C++ truncates where Dafny floors: `-7 / 2` is `-3` with remainder `-1`, not `-4` with `1`. */
  lemma TruncatesTowardZero()
    ensures CDiv(-7, 2) == -3 && CMod(-7, 2) == -1
    ensures -7 / 2 == -4 && -7 % 2 == 1
  {
  }

  /** Euclidean quotients and remainders are unique: `x == k * m + r` with `0 <= r < m` pins down `x / m` and `x % m`. */
  lemma ModUnique(x: int, m: int, k: int, r: int)
    requires m > 0 && x == k * m + r && 0 <= r < m
    ensures x % m == r && x / m == k
  {
    var k', r' := x / m, x % m;
    assert (k - k') * m == r' - r;
    if k - k' >= 1 {
      MulMonotone(1, k - k', m);
    } else if k - k' <= -1 {
      MulMonotone(1, k' - k, m);
    }
  }

  lemma MulMonotone(x: int, y: int, m: int)
    requires x <= y && m > 0
    ensures x * m <= y * m
  {
  }

  /** Adding a multiple of `m` does not change the remainder. */
  lemma ModAddMultiple(y: int, k: int, m: int)
    requires m > 0
    ensures (y + k * m) % m == y % m
  {
    var a, r := y / m, y % m;
    assert y + k * m == (a + k) * m + r;
    ModUnique(y + k * m, m, a + k, r);
  }

  /** Numbers with the same remainder differ by a multiple of `m`. */
  lemma CongruentDiffer(x: int, y: int, m: int)
    requires m > 0 && x % m == y % m
    ensures x == y + (x / m - y / m) * m
  {
    assert x == (x / m) * m + x % m && y == (y / m) * m + y % m;
  }

  /** Congruence modulo `m` is kept by adding, subtracting and scaling. */
  lemma CongruentAdd(a: int, a': int, c: int, m: int)
    requires m > 0 && a % m == a' % m
    ensures (a + c) % m == (a' + c) % m
  {
    var k := a / m - a' / m;
    CongruentDiffer(a, a', m);
    ModAddMultiple(a' + c, k, m);
  }

  lemma CongruentSub(a: int, a': int, b: int, b': int, m: int)
    requires m > 0 && a % m == a' % m && b % m == b' % m
    ensures (a - b) % m == (a' - b') % m
  {
    var k1, k2 := a / m - a' / m, b / m - b' / m;
    CongruentDiffer(a, a', m);
    CongruentDiffer(b, b', m);
    assert a - b == (a' - b') + (k1 - k2) * m;
    ModAddMultiple(a' - b', k1 - k2, m);
  }

  lemma CongruentScale(a: int, a': int, c: int, m: int)
    requires m > 0 && a % m == a' % m
    ensures (c * a) % m == (c * a') % m
  {
    var k := a / m - a' / m;
    CongruentDiffer(a, a', m);
    assert c * a == c * a' + (c * k) * m by {
      assert c * (a' + k * m) == c * a' + c * (k * m);
    }
    ModAddMultiple(c * a', c * k, m);
  }

  /** The C++ remainder is congruent to its dividend modulo a positive divisor. */
  lemma CModCongruent(a: int, b: int)
    requires b > 0
    ensures CMod(a, b) % b == a % b
  {
    DivModIdentity(a, b);
    var k, r := CDiv(a, b), CMod(a, b);
    ModAddMultiple(r, k, b);
  }
}
