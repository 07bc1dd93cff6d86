/** C++ integer operators. Dafny's `/` and `%` are Euclidean; C++ truncates towards zero.
    For a positive divisor Euclidean division is floor division. */
module CppInt {

  /** C++ `a / b`: the quotient rounded towards zero. */
  function Quot(a: int, b: int): int
    requires b > 0
  {
    if a >= 0 then a / b else -((-a) / b)
  }

  /** C++ `a % b`: takes the sign of `a`. */
  function Rem(a: int, b: int): int
    requires b > 0
  {
    a - b * Quot(a, b)
  }

  /** A quotient is determined by any remainder in range. */
  lemma DivUnique(x: int, n: int, q: int, r: int)
    requires n > 0 && 0 <= r < n && x == n * q + r
    ensures x / n == q && x % n == r
  {
    var q', r' := x / n, x % n;
    assert n * (q - q') == r' - r;
    MulAtLeast(n, q - q');
    MulAtLeast(n, q' - q);
  }

  lemma MulAtLeast(n: int, k: int)
    requires n > 0
    ensures k >= 1 ==> n * k >= n
  {}

  /** Floor division steps up exactly at multiples. */
  lemma DivStep(x: int, n: int)
    requires n > 0
    ensures (x + 1) / n == x / n + if (x + 1) % n == 0 then 1 else 0
  {
    var q, r := x / n, x % n;
    if r == n - 1 {
      assert n * (q + 1) == n * q + n;
      DivUnique(x + 1, n, q + 1, 0);
    } else {
      DivUnique(x + 1, n, q, r + 1);
    }
  }

  /** The expression `(x >= 0 ? x : x-(n-1)) / n` is floor division in C++. */
  lemma FloorIdiom(x: int, n: int)
    requires n > 0
    ensures Quot(if x >= 0 then x else x - (n - 1), n) == x / n
  {
    if x < 0 {
      var q, r := x / n, x % n;
      assert x == n * q + r;
      DivUnique(n - 1 - x, n, -q, n - 1 - r);
    }
  }

  /** C++ and Euclidean remainders vanish together, so `y % 4 == 0` means divisibility for any sign. */
  lemma RemZero(x: int, n: int)
    requires n > 0
    ensures Rem(x, n) == 0 <==> x % n == 0
  {
    if x < 0 {
      var k := (-x) / n;
      assert -x == n * k + (-x) % n;
      if Rem(x, n) == 0 {
        DivUnique(x, n, -k, 0);
      }
      if x % n == 0 {
        assert x == n * (x / n);
        DivUnique(-x, n, -(x / n), 0);
      }
    }
  }

  function Abs(x: int): nat {
    if x < 0 then -x else x
  }

  /** Narrowing to a 16-bit `short`, as the constructor of every `year` class does. */
  function Short(x: int): (r: int)
    ensures -32768 <= r <= 32767 && (r - x) % 65536 == 0
  {
    (x + 32768) % 65536 - 32768
  }

  lemma ShortIdentity(x: int)
    ensures Short(x) == x <==> -32768 <= x <= 32767
  {}

  lemma ShortShort(x: int, k: int)
    ensures Short(Short(x) + k) == Short(x + k)
  {
    var z := Short(x) + k + 32768;
    DivUnique(x + k + 32768, 65536, z / 65536 - (Short(x) - x) / 65536, z % 65536);
  }

  /** Narrowing to an `unsigned char`, as the constructors of `month`, `day` and `weekday` do. */
  function Byte(x: int): int {
    x % 256
  }

  predicate Fits32(x: int) {
    -0x8000_0000 <= x < 0x8000_0000
  }
}
