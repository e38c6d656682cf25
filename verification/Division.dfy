// 64-bit division on a processor whose divide instruction takes a 64-bit dividend and a 32-bit divisor
// and traps unless the quotient fits in 32 bits. Machine words are integers within their range, and
// every truncation is written out.
module Division {
  import opened Common

  const B32: int := 0x1_0000_0000
  const B63: int := 0x8000_0000_0000_0000
  const B64: int := 0x1_0000_0000_0000_0000

  predicate IsU32(x: int) { 0 <= x < B32 }
  predicate IsU64(x: int) { 0 <= x < B64 }
  predicate IsS64(x: int) { -B63 <= x < B63 }

  // The value a 64-bit (32-bit) word keeps of x, read as a signed number.
  function ToS64(x: int): (r: int)
    ensures IsS64(r)
  {
    var u := x % 0x1_0000_0000_0000_0000;
    if u < 0x8000_0000_0000_0000 then u else u - 0x1_0000_0000_0000_0000
  }

  function ToS32(x: int): (r: int)
    ensures -0x8000_0000 <= r < 0x8000_0000
  {
    var u := x % 0x1_0000_0000;
    if u < 0x8000_0000 then u else u - 0x1_0000_0000
  }

  // The DIVL instruction: it may only be given operands for which it does not trap.
  function Divl(n: int, d: int): (q: int)
    requires IsU64(n) && IsU32(d) && d != 0 && n / d < B32
    ensures IsU32(q)
  {
    n / d
  }

  lemma Pow2Values()
    ensures Pow2(1) == 2 && Pow2(2) == 4 && Pow2(4) == 16 && Pow2(8) == 256 && Pow2(16) == 0x1_0000
    ensures Pow2(31) == 0x8000_0000 && Pow2(32) == B32
  {
    assert Pow2(5) == 32 && Pow2(10) == 1024 && Pow2(15) == 0x8000 && Pow2(20) == 0x10_0000 && Pow2(25) == 0x200_0000;
    assert Pow2(30) == 0x4000_0000;
  }

  lemma MulAssoc(a: int, b: int, c: int)
    ensures a * b * c == a * (b * c)
  {}

  lemma {:induction false} Pow2Add(a: nat, b: nat)
    ensures Pow2(a + b) == Pow2(a) * Pow2(b)
  {
    if a > 0 {
      Pow2Add(a - 1, b);
      MulAssoc(2, Pow2(a - 1), Pow2(b));
    }
  }

  // y is x shifted left by n bits, with nothing lost.
  ghost predicate Shifted(x: int, n: nat, y: int) {
    y == x * Pow2(n)
  }

  lemma ShiftMore(x: int, n: nat, y: int, k: nat, p: int)
    requires Shifted(x, n, y) && p == Pow2(k)
    ensures Shifted(x, n + k, y * p)
  {
    hide Pow2;
    Pow2Add(n, k);
    MulAssoc(x, Pow2(n), Pow2(k));
  }

  // A left shift in a 32-bit register, by a power of two p, that loses no bits.
  function Shl32(y: int, p: int): (r: int)
    requires 0 <= y * p < 0x1_0000_0000
    ensures r == y * p
  {
    y * p % 0x1_0000_0000
  }

  // nlz(): the shift that brings the highest set bit of x to bit 31.
  method Nlz(x: int) returns (n: nat)
    requires IsU32(x) && x != 0
    ensures n <= 31 && Normalizes(x, n)
  {
    hide Pow2, Shifted, Shl32, Normalizes;
    Pow2Values();
    var y := x;
    n := 0;
    ShiftedZero(x);
    if y <= 0x0000_FFFF {
      ShiftMore(x, n, y, 16, 0x1_0000);
      n := n + 16;
      y := Shl32(y, 0x1_0000);
    }
    if y <= 0x00FF_FFFF {
      ShiftMore(x, n, y, 8, 0x100);
      n := n + 8;
      y := Shl32(y, 0x100);
    }
    if y <= 0x0FFF_FFFF {
      ShiftMore(x, n, y, 4, 0x10);
      n := n + 4;
      y := Shl32(y, 0x10);
    }
    if y <= 0x3FFF_FFFF {
      ShiftMore(x, n, y, 2, 4);
      n := n + 2;
      y := Shl32(y, 4);
    }
    if y <= 0x7FFF_FFFF {
      ShiftMore(x, n, y, 1, 2);
      n := n + 1;
      ghost var z := Shl32(y, 2);
      ShiftedNormalizes(x, n, z);
      return;
    }
    ShiftedNormalizes(x, n, y);
  }

  // Shifting x left by n brings its highest set bit to bit 31.
  ghost predicate Normalizes(x: int, n: nat) {
    Pow2(31) <= x * Pow2(n) < Pow2(32)
  }

  lemma ShiftedNormalizes(x: int, n: nat, y: int)
    requires Shifted(x, n, y) && 0x8000_0000 <= y < 0x1_0000_0000
    ensures Normalizes(x, n)
  {
    Pow2Values();
    hide Pow2;
  }

  lemma ShiftedZero(x: int)
    ensures Shifted(x, 0, x)
  {}

  // ---- Divisor below 2^32 ----

  // Schoolbook step: the high word is divided first, its remainder goes in front of the low word.
  lemma TwoWordDivision(n: int, d: int)
    requires IsU64(n) && 0 < d < B32
    ensures var n1, n0 := n / B32, n % B32;
            && IsU64(B32 * (n1 % d) + n0) && (B32 * (n1 % d) + n0) / d < B32
            && (B32 * (n1 % d) + n0) / d + B32 * (n1 / d) == n / d
  {
    var n1, n0 := n / B32, n % B32;
    var q1, r1 := n1 / d, n1 % d;
    var m := B32 * r1 + n0;
    assert n1 == d * q1 + r1;
    assert n == B32 * n1 + n0;
    assert B32 * n1 == d * (B32 * q1) + B32 * r1;
    assert m < B32 * d;
    DivBelow(m, d, B32);
    DivShift(m, d, B32 * q1);
  }

  lemma DivBelow(m: int, d: int, b: int)
    requires d > 0 && 0 <= m < b * d
    ensures 0 <= m / d < b
  {
    var q := m / d;
    assert m == d * q + m % d;
    if q >= b {
      MulMono(d, b, q);
      assert false;
    }
  }

  lemma MulMono(d: int, a: int, b: int)
    requires d >= 0 && a <= b
    ensures d * a <= d * b
  {}

  lemma DivShift(m: int, d: int, k: int)
    requires d > 0
    ensures (m + d * k) / d == m / d + k
  {
    DivUnique(m + d * k, d, m / d + k, m % d);
  }

  lemma DivUnique(n: int, d: int, q: int, r: int)
    requires d > 0 && n == d * q + r && 0 <= r < d
    ensures n / d == q
  {
    var q', r' := n / d, n % d;
    assert d * (q' - q) == r - r';
    if q' > q {
      MulMono(d, 1, q' - q);
    } else if q' < q {
      MulMono(d, 1, q - q');
    }
  }

  // ---- Divisor of 2^32 or more ----

  lemma DivAtMost(n: int, d: int, b: int)
    requires d > 0 && n < (b + 1) * d
    ensures n / d <= b
  {
    var q := n / d;
    if q > b {
      MulMono(d, b + 1, q);
    }
  }

  lemma DivAtLeast(n: int, d: int, b: int)
    requires d > 0 && b * d <= n
    ensures n / d >= b
  {
    var q := n / d;
    if q < b {
      MulMono(d, q + 1, b);
    }
  }

  lemma DivDiv(n: int, a: int, b: int)
    requires n >= 0 && a > 0 && b > 0
    ensures a * b > 0 && n / a / b == n / (a * b)
  {
    var x := n / a;
    var q := x / b;
    var r, t := n % a, x % b;
    assert n == a * x + r && x == b * q + t;
    MulAssoc(a, b, q);
    assert a * x == a * (b * q) + a * t;
    MulMono(a, t, b - 1);
    assert a * (b - 1) == a * b - a;
    DivUnique(n, a * b, q, a * t + r);
  }

  // The trial quotient: dividing by d rounded down to v * e, with v at least 2^31, is at most one off.
  lemma TrialQuotient(n: int, d: int, v: int, e: int, f: int)
    requires IsU64(n) && d > 0 && (e == 2 || e >= 4) && e * f == 2 * 0x1_0000_0000
    requires v == d / e && v >= 0x8000_0000
    ensures v * e > 0 && n / d <= n / (v * e) <= n / d + 1
  {
    var q, r := n / d, d % e;
    var d' := v * e;
    assert d == d' + r && 0 <= r < e;
    MulMono(e, 0x8000_0000, v);
    QuotientBound(n, d, q, e, f);
    assert q * d <= n < (q + 1) * d;
    RoundedBelow(n, d, d', q);
    Overshoot(q, d', r, e);
    RoundedAbove(n, d', r, q);
  }

  lemma RoundedBelow(n: int, d: int, d': int, q: int)
    requires 0 < d' <= d && q >= 0 && q * d <= n
    ensures n / d' >= q
  {
    MulMono(q, d', d);
    DivAtLeast(n, d', q);
  }

  lemma RoundedAbove(n: int, d': int, r: int, q: int)
    requires d' > 0 && n < (q + 1) * (d' + r) && (q + 1) * r <= d'
    ensures n / d' <= q + 1
  {
    assert (q + 1) * (d' + r) == (q + 1) * d' + (q + 1) * r;
    DivAtMost(n, d', q + 1);
  }

  lemma QuotientBound(n: int, d: int, q: int, e: int, f: int)
    requires IsU64(n) && d > 0 && q == n / d && e > 0 && d >= 0x8000_0000 * e && e * f == 2 * 0x1_0000_0000
    ensures 0 <= q && (q + 1) * e <= 2 * 0x1_0000_0000
  {
    assert q * d <= n;
    MulMono(q, 0x8000_0000 * e, d);
    assert q * (0x8000_0000 * e) == 0x8000_0000 * (q * e);
    assert q * e < 2 * 0x1_0000_0000;
    if q >= f {
      MulMono(e, f, q);
      assert false;
    }
    MulMono(e, q + 1, f);
  }

  lemma Overshoot(q: int, d': int, r: int, e: int)
    requires 0 <= q && (q + 1) * e <= 2 * 0x1_0000_0000 && 0 <= r < e && (e == 2 || e >= 4) && d' >= 0x8000_0000 * e
    ensures (q + 1) * r <= d'
  {
    MulMono(q + 1, r, e - 1);
    assert (q + 1) * (e - 1) == (q + 1) * e - (q + 1);
  }

  // A 64-bit word with high word near x1 and low part y.
  lemma WordBounds(w: int, x1: int, y: int, p: int)
    requires w == x1 * 0x1_0000_0000 + y && 0 <= y <= 0xFFFF_FFFF * p
    requires 0x8000_0000 <= x1 && x1 + p <= 0x1_0000_0000 && p >= 1
    ensures 0 < w < 0x1_0000_0000_0000_0000 && 0x8000_0000 <= w / 0x1_0000_0000 < 0x1_0000_0000
  {}

  lemma Distribute(d1: int, d0: int, p: int)
    ensures (d1 * 0x1_0000_0000 + d0) * p == d1 * p * 0x1_0000_0000 + d0 * p
  {}

  // The divisor shifted up so that its top bit is bit 63 loses nothing, and its high word is d / e.
  lemma ShiftedDivisor(d: int, d1: int, p: int, e: int)
    requires d1 == d / 0x1_0000_0000 && 0x1_0000_0000 <= d && p >= 1 && p * e == 0x1_0000_0000
    requires 0x8000_0000 <= d1 * p < 0x1_0000_0000
    ensures e > 0 && 0 < d * p < 0x1_0000_0000_0000_0000
    ensures d * p / 0x1_0000_0000 == d / e
    ensures 0x8000_0000 <= d / e < 0x1_0000_0000
  {
    var d0 := d % 0x1_0000_0000;
    FactorPositive(p, e);
    MultipleBelow(d1, p, e);
    Distribute(d1, d0, p);
    MulMono(p, d0, 0xFFFF_FFFF);
    MulMono(p, 0, d0);
    WordBounds(d * p, d1 * p, d0 * p, p);
    ScaleBoth(d, e, p);
  }

  lemma FactorPositive(p: int, e: int)
    requires p >= 1 && p * e == 0x1_0000_0000
    ensures e > 0
  {
    if e <= 0 {
      MulMono(p, e, 0);
    }
  }

  // A multiple of p below p * e is at most p * e - p.
  lemma MultipleBelow(x: int, p: int, e: int)
    requires p > 0 && x * p < p * e
    ensures x * p <= p * e - p
  {
    if x >= e {
      MulMono(p, e, x);
    } else {
      MulMono(p, x, e - 1);
      assert p * (e - 1) == p * e - p;
    }
  }

  lemma ScaleBoth(d: int, e: int, p: int)
    requires d >= 0 && e > 0 && p > 0
    ensures p * e > 0 && d * p / (p * e) == d / e
  {
    var q, r := d / e, d % e;
    assert d == e * q + r;
    assert d * p == (p * e) * q + p * r;
    MulMono(p, r, e - 1);
    assert p * (e - 1) == p * e - p;
    assert 0 <= p * r < p * e;
    DivUnique(d * p, p * e, q, p * r);
  }

  // The high word of the divisor shifted left by s bits.
  function HighWord(d: int, s: nat): int {
    (d * Pow2(s)) % 0x1_0000_0000_0000_0000 / 0x1_0000_0000
  }

  // The correction step, in 64-bit arithmetic.
  function Corrected(n: int, d: int, q: int): int {
    if (n - (q - 1) * d) % 0x1_0000_0000_0000_0000 < d then q - 1 else q
  }

  // The branch of udiv64() for a divisor that fits in 32 bits.
  function ShortDivisor(n: int, d: int): (q: int)
    requires IsU64(n) && 0 < d < 0x1_0000_0000
    ensures q == n / d
  {
    var n1, n0 := n / 0x1_0000_0000, n % 0x1_0000_0000;
    TwoWordDivision(n, d);
    Divl(0x1_0000_0000 * (n1 % d) + n0, d) + 0x1_0000_0000 * (n1 / d)
  }

  // udiv64(): the exact quotient, for every dividend and every divisor but 0; neither DIVL traps.
  method Udiv64(n: int, d: int) returns (q: int)
    requires IsU64(n) && IsU64(d) && d != 0
    ensures q == n / d
  {
    hide Pow2, Normalizes, HighWord, Corrected, ShortDivisor;
    if d / 0x1_0000_0000 == 0 {
      q := ShortDivisor(n, d);
    } else if n < d {
      q := 0;
    } else {
      var s := Nlz(d / 0x1_0000_0000);
      DivisorHighWord(d, s);
      HalfDividend(n, HighWord(d, s));
      LargeDivisor(n, d, s, HighWord(d, s));
      var trial := Divl(n / 2, HighWord(d, s)) / Pow2(31 - s);
      q := Corrected(n, d, trial);
    }
  }

  lemma DivisorHighWord(d: int, s: nat)
    requires IsU64(d) && 0x1_0000_0000 <= d && s <= 31 && Normalizes(d / 0x1_0000_0000, s)
    ensures Pow2(s) * Pow2(32 - s) == 0x1_0000_0000
    ensures HighWord(d, s) == d / Pow2(32 - s) && 0x8000_0000 <= HighWord(d, s) < 0x1_0000_0000
  {
    Pow2Values();
    Pow2Add(s, 32 - s);
    hide Pow2;
    ShiftedDivisor(d, d / 0x1_0000_0000, Pow2(s), Pow2(32 - s));
  }

  // The quotient of the halved dividend by the high word, shifted back and corrected, is exact.
  lemma LargeDivisor(n: int, d: int, s: nat, v: int)
    requires IsU64(n) && 0 < d <= n && s <= 31 && Pow2(s) * Pow2(32 - s) == 0x1_0000_0000
    requires v == d / Pow2(32 - s) && v >= 0x8000_0000
    ensures Corrected(n, d, n / 2 / v / Pow2(31 - s)) == n / d
  {
    var p, h, e := Pow2(s), Pow2(31 - s), Pow2(32 - s);
    Pow2Split(31 - s);
    hide Pow2, Corrected;
    TwiceProduct(p, e);
    TrialQuotient(n, d, v, e, 2 * p);
    TrialInSteps(n, v, h, e);
    Correction(n, d, n / 2 / v / h);
  }

  lemma TwiceProduct(p: int, e: int)
    requires p * e == 0x1_0000_0000
    ensures e * (2 * p) == 2 * 0x1_0000_0000
  {}

  lemma HalfDividend(n: int, v: int)
    requires IsU64(n) && v >= 0x8000_0000
    ensures n / 2 / v < 0x1_0000_0000
  {
    MulMono(0x1_0000_0000, 0x8000_0000, v);
    DivBelow(n / 2, v, 0x1_0000_0000);
  }

  lemma TrialInSteps(n: int, v: int, h: int, e: int)
    requires n >= 0 && v > 0 && h > 0 && e == 2 * h
    ensures v * e > 0 && n / 2 / v / h == n / (v * e)
  {
    DivDiv(n, 2, v);
    DivDiv(n, 2 * v, h);
    assert 2 * v * h == v * e;
  }

  lemma Pow2Split(k: nat)
    ensures Pow2(k + 1) == 2 * Pow2(k) && (Pow2(k + 1) == 2 || Pow2(k + 1) >= 4)
  {}

  // The correction step picks the right one of the two candidates, without leaving 64 bits.
  lemma Correction(n: int, d: int, t: int)
    requires IsU64(n) && 0 < d <= n && n / d <= t <= n / d + 1
    ensures Corrected(n, d, t) == n / d
  {
    var q, r := n / d, n % d;
    assert n == d * q + r;
    DivAtLeast(n, d, 1);
    if t == q + 1 {
      assert n - (t - 1) * d == r;
    } else {
      assert n - (t - 1) * d == r + d;
      MulMono(d, 1, q);
    }
  }

  // ---- Remainders and signed division ----

  lemma RemainderIs(n: int, d: int)
    requires d > 0
    ensures n - d * (n / d) == n % d
  {}

  // umod64(): the result type keeps only 32 bits of the remainder.
  method Umod64(n: int, d: int) returns (r: int)
    requires IsU64(n) && IsU64(d) && d != 0
    ensures r == n % d % 0x1_0000_0000
    ensures r == n % d <==> n % d < 0x1_0000_0000
  {
    var q := Udiv64(n, d);
    RemainderIs(n, d);
    r := (n - d * q) % 0x1_0000_0000;
  }

  // For which divisors umod64() is right whatever the dividend.
  lemma UmodDivisors(d: int)
    requires IsU64(d) && d != 0
    ensures (forall n | IsU64(n) :: n % d % 0x1_0000_0000 == n % d) <==> d <= 0x1_0000_0000
  {
    if d > 0x1_0000_0000 {
      var n := 0x1_0000_0000;
      assert IsU64(n) && n % d == n;
      assert n % d % 0x1_0000_0000 != n % d;
    } else {
      forall n | IsU64(n) ensures n % d % 0x1_0000_0000 == n % d {
        assert 0 <= n % d < d;
      }
    }
  }

  // Division that truncates toward zero, and its remainder, as C defines them.
  function TruncDiv(n: int, d: int): int
    requires d != 0
  {
    var q := (if n < 0 then -n else n) / (if d < 0 then -d else d);
    if (n < 0) == (d < 0) then q else -q
  }

  function TruncMod(n: int, d: int): int
    requires d != 0
  {
    n - d * TruncDiv(n, d)
  }

  // What TruncDiv and TruncMod mean: the remainder is smaller than the divisor and has the sign of n.
  lemma TruncMeaning(n: int, d: int)
    requires d != 0
    ensures n == d * TruncDiv(n, d) + TruncMod(n, d)
    ensures var r, a := TruncMod(n, d), if d < 0 then -d else d;
            if n >= 0 then r == n % a && 0 <= r < a else -r == (-n) % a && -a < r <= 0
  {
    var a, m := if d < 0 then -d else d, if n < 0 then -n else n;
    var q := m / a;
    assert m == a * q + m % a;
    assert d * q == if d < 0 then -(a * q) else a * q;
    assert d * -q == -(d * q);
  }

  // The magnitude of n, computed in 64-bit unsigned arithmetic.
  function Magnitude(n: int): (m: int)
    requires IsS64(n)
    ensures m == if n < 0 then -n else n
  {
    if n >= 0 then n else (-(n % 0x1_0000_0000_0000_0000)) % 0x1_0000_0000_0000_0000
  }

  lemma MagnitudeQuotient(n: int, d: int)
    requires 0 <= n <= B63 && d > 0
    ensures 0 <= n / d <= n && (n / d == B63 ==> n == B63 && d == 1)
  {
    assert n == d * (n / d) + n % d;
    if n / d > 0 {
      MulMono(n / d, 1, d);
      if d > 1 {
        MulMono(n / d, 2, d);
      }
    }
  }

  // sdiv64(): truncates toward zero except for the one quotient that 64 bits cannot hold.
  method Sdiv64(n: int, d: int) returns (q: int)
    requires IsS64(n) && IsS64(d) && d != 0
    ensures IsS64(q) && q == ToS64(TruncDiv(n, d))
    ensures q == TruncDiv(n, d) <==> !(n == -B63 && d == -1)
  {
    var nAbs, dAbs := Magnitude(n), Magnitude(d);
    var qAbs := Udiv64(nAbs, dAbs);
    MagnitudeQuotient(nAbs, dAbs);
    SignedQuotient(n, d, qAbs);
    hide ToS64, TruncDiv, Magnitude;
    q := if (n < 0) == (d < 0) then ToS64(qAbs) else ToS64(-ToS64(qAbs));
  }

  lemma SignedQuotient(n: int, d: int, m: int)
    requires IsS64(n) && IsS64(d) && d != 0
    requires m == (if n < 0 then -n else n) / (if d < 0 then -d else d)
    requires 0 <= m <= B63 && (m == B63 ==> n == -B63 && (d == 1 || d == -1))
    ensures var t := TruncDiv(n, d);
            && (if (n < 0) == (d < 0) then ToS64(m) else ToS64(-ToS64(m))) == ToS64(t)
            && (ToS64(t) == t <==> !(n == -B63 && d == -1))
  {
    Narrow64(m);
    if n == -B63 && d == -1 {
      assert m == B63;
    }
  }

  // ToS64 is the identity exactly on the 64-bit range, and takes 2^63 to its negative.
  lemma Narrow64(m: int)
    requires 0 <= m <= B63
    ensures ToS64(m) == (if m == B63 then -B63 else m) && ToS64(-m) == -m && ToS64(-ToS64(m)) == -m
  {}

  // smod64(): the result type keeps only 32 bits, sign included.
  method Smod64(n: int, d: int) returns (r: int)
    requires IsS64(n) && IsS64(d) && d != 0
    ensures r == ToS32(TruncMod(n, d))
    ensures r == TruncMod(n, d) <==> -0x8000_0000 <= TruncMod(n, d) < 0x8000_0000
  {
    var q := Sdiv64(n, d);
    hide TruncDiv, ToS64, ToS32;
    LowBits(n, d, q, TruncDiv(n, d));
    Narrow32(TruncMod(n, d));
    r := ToS32(ToS64(n - ToS64(d * q)));
  }

  lemma Narrow32(x: int)
    ensures ToS32(x) == x <==> -0x8000_0000 <= x < 0x8000_0000
  {}

  // Narrowing subtracts a multiple of the word size.
  lemma Residue64(x: int) returns (k: int)
    ensures x == ToS64(x) + k * 0x1_0000_0000_0000_0000
  {
    k := x / 0x1_0000_0000_0000_0000 + if x % 0x1_0000_0000_0000_0000 < 0x8000_0000_0000_0000 then 0 else 1;
  }

  lemma Residue32(x: int) returns (k: int)
    ensures x == ToS32(x) + k * 0x1_0000_0000
  {
    k := x / 0x1_0000_0000 + if x % 0x1_0000_0000 < 0x8000_0000 then 0 else 1;
  }

  lemma Residue32Unique(x: int, r: int, k: int)
    requires x == r + k * 0x1_0000_0000 && -0x8000_0000 <= r < 0x8000_0000
    ensures ToS32(x) == r
  {
    var j := Residue32(x);
    hide ToS32;
    assert ToS32(x) - r == (k - j) * 0x1_0000_0000;
  }

  lemma SameLowBits(x: int, y: int, m: int)
    requires y == x + m * 0x1_0000_0000_0000_0000
    ensures ToS32(x) == ToS32(y)
  {
    var k := Residue32(x);
    hide ToS32;
    Residue32Unique(y, ToS32(x), k + m * 0x1_0000_0000);
  }

  // Only the quotient's residue modulo 2^64 matters to the low 32 bits of the remainder.
  lemma LowBits(n: int, d: int, q: int, t: int)
    requires q == ToS64(t)
    ensures ToS32(ToS64(n - ToS64(d * q))) == ToS32(n - d * t)
  {
    hide ToS64, ToS32;
    var k := Residue64(t);
    var i := Residue64(d * q);
    var w := ToS64(d * q);
    var j := Residue64(n - w);
    ProductOfSum(d, q, k);
    SameLowBits(ToS64(n - w), n - d * t, j - i - d * k);
  }

  lemma ProductOfSum(d: int, q: int, k: int)
    ensures d * (q + k * 0x1_0000_0000_0000_0000) == d * q + (d * k) * 0x1_0000_0000_0000_0000
  {}

  // For which divisors smod64() is right whatever the dividend.
  lemma SmodDivisors(d: int)
    requires IsS64(d) && d != 0
    ensures (forall n | IsS64(n) :: ToS32(TruncMod(n, d)) == TruncMod(n, d)) <==> -0x8000_0000 <= d <= 0x8000_0000
  {
    hide TruncMod, TruncDiv, ToS32;
    if -0x8000_0000 <= d <= 0x8000_0000 {
      forall n | IsS64(n) ensures ToS32(TruncMod(n, d)) == TruncMod(n, d) {
        TruncMeaning(n, d);
        Narrow32(TruncMod(n, d));
      }
    } else {
      var n := 0x8000_0000;
      TruncMeaning(n, d);
      SmallDividend(n, if d < 0 then -d else d);
      Narrow32(TruncMod(n, d));
      assert IsS64(n);
    }
  }

  lemma SmallDividend(n: int, a: int)
    requires 0 <= n < a
    ensures n % a == n
  {}
}
