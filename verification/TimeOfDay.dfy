/** Times of day in date/date.h: how many decimal digits a tick needs, splitting a duration into
    h:m:s.subseconds, and the 12-hour clock. */
module TimeOfDay {
  import opened CppInt

  // ---------- width<n> ----------

  const WRAP := 0x1_0000_0000_0000_0000

  /** The template recursion of `width`, over wrapping 64-bit unsigned values. */
  function WidthFrom(n: nat, d: nat, w: nat): nat
    decreases 19 - w
  {
    if !(n < 2) && d != 0 && w < 19 then 1 + WidthFrom(n, d % n * 10 % WRAP, w + 1) else 0
  }

  function Width(n: nat): nat {
    WidthFrom(n, 10, 0)
  }

  function Pow10(w: nat): nat {
    if w == 0 then 1 else 10 * Pow10(w - 1)
  }

  lemma {:induction false} Pow10Increasing(v: nat, w: nat)
    requires v <= w
    ensures 1 <= Pow10(v) <= Pow10(w)
    decreases w
  {
    if v < w {
      Pow10Increasing(v, w - 1);
    } else if v > 0 {
      Pow10Increasing(v - 1, v - 1);
    }
  }

  lemma Pow10Of18()
    ensures Pow10(18) == 1_000_000_000_000_000_000
  {
    assert Pow10(6) == 1_000_000;
    assert Pow10(12) == 1_000_000 * Pow10(6) by {
      assert Pow10(9) == 1000 * Pow10(6);
      assert Pow10(12) == 1000 * Pow10(9);
    }
    assert Pow10(15) == 1000 * Pow10(12);
    assert Pow10(18) == 1000 * Pow10(15);
  }

  lemma ModTimesTen(a: nat, n: nat)
    requires n > 0
    ensures 10 * (a % n) % n == 10 * a % n
  {
    var b := 10 * (a % n);
    var q := 10 * (a / n);
    assert 10 * a == n * q + b;
    assert 10 * a == n * (q + b / n) + b % n;
    DivUnique(10 * a, n, q + b / n, b % n);
  }

  /** The wrap-around never happens: a remainder times ten fits for every 64-bit `n`. */
  lemma NoWrap(n: nat, w: nat)
    requires 2 <= n < WRAP && w <= 18
    ensures 10 * (Pow10(w) % n) < WRAP
  {
    Pow10Increasing(w, 18);
    Pow10Of18();
    if n > Pow10(18) {
      DivUnique(Pow10(w), n, 0, Pow10(w));
    }
  }

  lemma {:induction false} WidthFromFinds(n: nat, d: nat, w: nat)
    requires 2 <= n < WRAP && w <= 19 && (w < 19 ==> d == 10 * (Pow10(w) % n))
    ensures w + WidthFrom(n, d, w) <= 19
    ensures forall v :: w <= v < w + WidthFrom(n, d, w) ==> Pow10(v) % n != 0
    ensures w + WidthFrom(n, d, w) < 19 ==> Pow10(w + WidthFrom(n, d, w)) % n == 0
    decreases 19 - w
  {
    hide Pow10;
    if w < 19 && d != 0 {
      if w < 18 {
        NextRemainder(n, d, w);
      }
      WidthFromFinds(n, d % n * 10 % WRAP, w + 1);
    }
  }

  lemma NextRemainder(n: nat, d: nat, w: nat)
    requires 2 <= n < WRAP && w < 18 && d == 10 * (Pow10(w) % n)
    ensures d % n * 10 % WRAP == 10 * (Pow10(w + 1) % n)
  {
    ModTimesTen(Pow10(w), n);
    NoWrap(n, w + 1);
    SmallMod(10 * (Pow10(w + 1) % n), WRAP);
  }

  lemma SmallMod(a: nat, n: nat)
    requires a < n
    ensures a % n == a
  {
    DivUnique(a, n, 0, a);
  }

  /** `width<n>` is the least number of digits that writes `1/n` exactly, or 19 if 18 are not enough. */
  lemma WidthIsLeast(n: nat)
    requires 2 <= n < WRAP
    ensures Width(n) <= 19
    ensures forall v :: 0 <= v < Width(n) ==> Pow10(v) % n != 0
    ensures Width(n) < 19 ==> Pow10(Width(n)) % n == 0
  {
    assert Pow10(0) == 1;
    DivUnique(1, n, 0, 1);
    WidthFromFinds(n, 10, 0);
  }

  // ---------- splitting a duration ----------

  const IS_24HR := 0
  const AM := 1
  const PM := 2

  datatype Fields = Fields(neg: bool, mode: int, h: int, m: int, s: int, sub: int)

  /** Subseconds per second in the printed precision: 10^width, or microseconds where that is out of range. */
  function Precision(den: nat): nat {
    Pow10(if Width(den) < 19 then Width(den) else 6)
  }

  function Times(a: int, b: int): int {
    a * b
  }

  /** The constructor from a duration of `x` ticks of `1/den` second. */
  function Split(den: nat, x: int): Fields
    requires den > 0
  {
    var h := Abs(Quot(x, 3600 * den));
    var r1 := Abs(x) - Times(3600 * den, h);
    var m := Quot(r1, 60 * den);
    var r2 := r1 - Times(60 * den, m);
    var s := Quot(r2, den);
    var r3 := r2 - Times(den, s);
    Fields(x < 0, IS_24HR, h, m, s, Quot(Times(r3, Precision(den)), den))
  }

  function To24hr(h: int, mode: int): int {
    if mode == PM then if h != 12 then h + 12 else h
    else if mode == AM then if h == 12 then 0 else h
    else h
  }

  /** `to_duration`, in ticks of the printed precision. */
  function ToDuration(f: Fields, precision: nat): int {
    var p := Times(3600 * To24hr(f.h, f.mode) + f.s + 60 * f.m, precision) + f.sub;
    if f.neg then -p else p
  }

  lemma QuotDigit(a: int, k: int)
    requires a >= 0 && k > 0
    ensures var q := Quot(a, k); q >= 0 && 0 <= a - Times(k, q) < k
  {
    var q, r := a / k, a % k;
    assert a == k * q + r;
    MulAtLeast(k, -q);
    assert k * -q == -(k * q);
  }

  lemma Product(k: int, z: int)
    requires k > 0
    ensures z >= 0 ==> k * z >= 0
  {}

  lemma DigitBound(r: int, k: int, q: int)
    requires k > 0 && 0 <= r < 60 * k && 0 <= r - Times(k, q)
    ensures q < 60
  {
    Product(k, q - 60);
    assert k * (q - 60) == k * q - 60 * k;
  }

  lemma QuotAbs(x: int, k: int)
    requires k > 0
    ensures Abs(Quot(x, k)) == Quot(Abs(x), k)
  {
    QuotDigit(Abs(x), k);
  }

  /** One digit in base 60. */
  lemma Digit(a: int, k: int, q: int)
    requires k > 0 && 0 <= a < 60 * k && q == Quot(a, k)
    ensures 0 <= q < 60 && 0 <= a - Times(k, q) < k
  {
    hide Quot, Times;
    QuotDigit(a, k);
    DigitBound(a, k, q);
  }

  /** The magnitude as hours, minutes, seconds and a remainder in range. */
  lemma SplitDigits(den: nat, x: int, f: Fields, t: int)
    requires den > 0 && f == Split(den, x)
    requires t == Abs(x) - Times(3600 * den, f.h) - Times(60 * den, f.m) - Times(den, f.s)
    ensures f.h >= 0 && 0 <= f.m < 60 && 0 <= f.s < 60
    ensures 0 <= t < den && f.sub == Quot(Times(t, Precision(den)), den)
  {
    hide Precision, Quot, Abs, Times;
    QuotAbs(x, 3600 * den);
    QuotDigit(Abs(x), 3600 * den);
    Digit(Abs(x) - Times(3600 * den, f.h), 60 * den, f.m);
    Digit(Abs(x) - Times(3600 * den, f.h) - Times(60 * den, f.m), den, f.s);
  }

  lemma SumTimes(den: int, h: int, m: int, s: int)
    ensures Times(3600 * den, h) + Times(60 * den, m) + Times(den, s) == Times(den, 3600 * h + s + 60 * m)
  {}

  lemma ExactSub(t: int, den: int, q: int)
    requires den > 0 && t >= 0 && q >= 0
    ensures Quot(Times(t, Times(den, q)), den) == Times(t, q)
  {
    assert t * (den * q) == den * (t * q);
    Product(t + 1, q);
    assert t * q >= 0;
    DivUnique(den * (t * q), den, t * q, 0);
  }

  lemma Recombine(den: int, q: int, secs: int, t: int, a: int)
    requires a == Times(den, secs) + t
    ensures Times(secs, Times(den, q)) + Times(t, q) == Times(a, q)
  {
    assert secs * (den * q) == (den * secs) * q;
  }

  /** Whenever 18 digits are enough, splitting a duration of either sign and putting it together again loses nothing. */
  lemma DurationRoundTrip(den: nat, x: int)
    requires 1 <= den < WRAP && Width(den) <= 18
    ensures Precision(den) % den == 0
    ensures ToDuration(Split(den, x), Precision(den)) == x * (Precision(den) / den)
  {
    hide Quot, Width, Pow10, Split;
    if den >= 2 {
      WidthIsLeast(den);
    } else {
      WholeSeconds();
    }
    PrecisionExact(den);
    Rebuilt(den, x, Split(den, x), Precision(den) / den);
  }

  lemma WholeSeconds()
    ensures Width(1) == 0 && Pow10(0) % 1 == 0
  {}

  lemma PrecisionExact(den: nat)
    requires den > 0 && Width(den) <= 18 && Pow10(Width(den)) % den == 0
    ensures Precision(den) % den == 0 && Precision(den) == Times(den, Precision(den) / den)
  {
    hide Width, Pow10;
  }

  lemma SignedTimes(x: int, q: int)
    ensures Times(Abs(x), q) == if x < 0 then -(x * q) else x * q
  {}

  lemma Rebuilt(den: nat, x: int, f: Fields, q: int)
    requires den > 0 && f == Split(den, x) && Precision(den) == Times(den, q)
    ensures ToDuration(f, Precision(den)) == x * q
  {
    hide Quot, Precision, Width, Times, Split, Abs;
    var secs := 3600 * f.h + f.s + 60 * f.m;
    var t := Abs(x) - Times(den, secs);
    SumTimes(den, f.h, f.m, f.s);
    SplitDigits(den, x, f, t);
    SplitSign(den, x, f);
    QIsPositive(den, q);
    ExactSub(t, den, q);
    Recombine(den, q, secs, t, Abs(x));
    SignedTimes(x, q);
  }

  lemma SplitSign(den: nat, x: int, f: Fields)
    requires den > 0 && f == Split(den, x)
    ensures f.neg == (x < 0) && f.mode == IS_24HR
  {}

  lemma QIsPositive(den: nat, q: int)
    requires den > 0 && Precision(den) == Times(den, q)
    ensures q >= 0
  {
    hide Precision, Width;
    if q < 0 {
      MulAtLeast(den, -q);
    }
  }

  /** Where no 18 digits are enough the subseconds are microseconds, rounded down. */
  lemma Microseconds(den: nat, x: int, f: Fields, t: int)
    requires 2 <= den < WRAP && f == Split(den, x) && forall v :: 0 <= v <= 18 ==> Pow10(v) % den != 0
    requires t == Abs(x) - Times(3600 * den, f.h) - Times(60 * den, f.m) - Times(den, f.s)
    ensures 0 <= f.sub < 1_000_000
    ensures Times(den, f.sub) <= 1_000_000 * t < Times(den, f.sub + 1)
  {
    hide Width, Pow10, Split, Quot, Abs;
    WidthIsLeast(den);
    assert Width(den) == 19;
    Million();
    SplitDigits(den, x, f, t);
    QuotDigit(1_000_000 * t, den);
    Product(den, f.sub - 1_000_000);
    assert den * (f.sub - 1_000_000) == den * f.sub - 1_000_000 * den;
  }

  lemma Million()
    ensures Pow10(6) == 1_000_000
  {}

  // ---------- the 12-hour clock ----------

  /** The hour and mode `make12` leaves behind. */
  function To12hr(h: int): (int, int) {
    if h >= 12 then (if h > 12 then h - 12 else h, PM) else (if h == 0 then 12 else h, AM)
  }

  class Clock {
    var h: int
    var mode: int

    constructor (hours: int)
      ensures h == hours && mode == IS_24HR
    {
      h, mode := hours, IS_24HR;
    }

    method Make24()
      modifies this
      ensures h == To24hr(old(h), old(mode)) && mode == IS_24HR
    {
      var hours := h;
      if mode == AM || mode == PM {
        if mode == PM {
          if hours != 12 {
            hours := hours + 12;
          }
        } else if hours == 12 {
          hours := 0;
        }
      }
      h := hours;
      mode := IS_24HR;
    }

    method Make12()
      modifies this
      ensures (h, mode) == if old(mode) == IS_24HR then To12hr(old(h)) else (old(h), old(mode))
    {
      if mode == IS_24HR {
        if h >= 12 {
          if h > 12 {
            h := h - 12;
          }
          mode := PM;
        } else {
          if h == 0 {
            h := 12;
          }
          mode := AM;
        }
      }
    }
  }

  /** Going to the 12-hour clock and back keeps every hour except 24, which comes back as 12. */
  method ThereAndBack(hours: nat) returns (c: Clock)
    ensures c.mode == IS_24HR && (c.h == hours <==> hours != 24)
    ensures hours == 24 ==> c.h == 12
  {
    c := new Clock(hours);
    c.Make12();
    c.Make24();
  }

  /** On real hours the 12-hour clock shows 1 to 12, and both conversions are inverse to each other; later hours go on
      counting in the afternoon. */
  lemma TwelveHourBijection(h: int, h12: int, mode: int)
    ensures 0 <= h < 24 ==>
            && 1 <= To12hr(h).0 <= 12 && (To12hr(h).1 == PM <==> h >= 12)
            && To24hr(To12hr(h).0, To12hr(h).1) == h
    ensures 1 <= h12 <= 12 && (mode == AM || mode == PM) ==>
            0 <= To24hr(h12, mode) < 24 && To12hr(To24hr(h12, mode)) == (h12, mode)
    ensures h > 12 ==> To12hr(h) == (h - 12, PM)
  {}
}
