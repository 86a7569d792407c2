/** Powers of two, the ceil-log2 loop, alignment, and bitwise operators on unbounded
    naturals.  Every address computation of the generator rests on these few facts. */
module Bits {

  const TWO31: nat := 0x8000_0000
  const TWO32: nat := 0x1_0000_0000
  const TWO63: int := 0x8000_0000_0000_0000
  const TWO64: nat := 0x1_0000_0000_0000_0000

  function Pow2(n: nat): (p: nat)
    ensures p > 0
  {
    if n == 0 then 1 else 2 * Pow2(n - 1)
  }

  lemma Pow2Succ(n: nat)
    ensures Pow2(0) == 1 && (n > 0 ==> Pow2(n) == 2 * Pow2(n - 1))
  {
  }

  lemma {:induction false} Pow2Add(a: nat, b: nat)
    ensures Pow2(a + b) == Pow2(a) * Pow2(b)
  {
    if a == 0 {
    } else {
      Pow2Add(a - 1, b);
      assert Pow2(a + b) == 2 * Pow2(a - 1 + b);
      assert 2 * (Pow2(a - 1) * Pow2(b)) == (2 * Pow2(a - 1)) * Pow2(b);
    }
  }

  lemma {:induction false} Pow2Mono(a: nat, b: nat)
    requires a <= b
    ensures Pow2(a) <= Pow2(b)
    ensures a < b ==> 2 * Pow2(a) <= Pow2(b)
    decreases b - a
  {
    if a < b {
      Pow2Mono(a, b - 1);
    }
  }

  /** A power of two divides every larger power of two. */
  lemma Pow2Divides(a: nat, b: nat)
    requires a <= b
    ensures Pow2(b) == Pow2(a) * Pow2(b - a) && Pow2(b) % Pow2(a) == 0
  {
    Pow2Add(a, b - a);
    MulMod(Pow2(b - a), Pow2(a));
  }

  // ----- division and remainder -----

  lemma MulMod(q: nat, m: nat)
    requires m > 0
    ensures (q * m) % m == 0 && (q * m) / m == q && (m * q) % m == 0 && (m * q) / m == q
  {
    DivUnique(q * m, m, q, 0);
  }

  /** Multiples of m are at least m apart. */
  lemma MultipleGap(q: nat, r: nat, m: nat)
    requires q < r
    ensures q * m + m <= r * m
  {
    assert (q + 1) * m == q * m + m;
    MulLe(q + 1, r, m);
  }

  lemma Commute(x: nat, y: nat)
    ensures x * y == y * x
  {
  }

  lemma MulLe(a: nat, b: nat, m: nat)
    requires a <= b
    ensures a * m <= b * m && m * a <= m * b
  {
  }

  lemma SameQuotient(q: nat, r: nat, q': nat, r': nat, m: nat)
    requires r < m && r' < m && q * m + r == q' * m + r'
    ensures q == q' && r == r'
  {
    if q < q' {
      MultipleGap(q, q', m);
    } else if q' < q {
      MultipleGap(q', q, m);
    }
  }

  /** Quotient and remainder are determined by q*m + r with r below m. */
  lemma DivUnique(x: nat, m: nat, q: nat, r: nat)
    requires m > 0 && r < m && x == q * m + r
    ensures x / m == q && x % m == r
  {
    SameQuotient(q, r, x / m, x % m, m);
  }

  /** Adding a multiple of m shifts the quotient and keeps the remainder. */
  lemma AddMultiple(x: nat, q: nat, m: nat)
    requires m > 0
    ensures (q * m + x) / m == q + x / m && (q * m + x) % m == x % m
  {
    assert q * m + x == (q + x / m) * m + x % m by {
      assert (q + x / m) * m == q * m + (x / m) * m;
    }
    DivUnique(q * m + x, m, q + x / m, x % m);
  }

  lemma SubMultiple(x: nat, y: nat, m: nat)
    requires m > 0 && y <= x && y % m == 0
    ensures (x - y) % m == x % m && (x - y) / m == x / m - y / m
    ensures x / m >= y / m
  {
    AddMultiple(x - y, y / m, m);
    assert y == (y / m) * m;
  }

  /** A multiple of b is a multiple of every divisor a of b. */
  lemma MultipleOfMultiple(x: nat, a: nat, c: nat)
    requires a > 0 && c > 0 && x % (a * c) == 0
    ensures x % a == 0
  {
    var q := x / (a * c);
    assert x == q * (a * c);
    assert q * (a * c) == (q * c) * a;
    MulMod(q * c, a);
  }

  lemma MultipleOfPow2(x: nat, a: nat, b: nat)
    requires a <= b && x % Pow2(b) == 0
    ensures x % Pow2(a) == 0
  {
    Pow2Add(a, b - a);
    MultipleOfMultiple(x, Pow2(a), Pow2(b - a));
  }

  /** Dividing by a*c is dividing by a and then by c. */
  lemma DivDiv(x: nat, a: nat, c: nat)
    requires a > 0 && c > 0
    ensures a * c > 0
    ensures (x / a) / c == x / (a * c)
    ensures x % (a * c) == a * ((x / a) % c) + x % a
  {
    var q := x / a;
    DivDivParts(x, a, c, q, x % a, q / c, q % c);
  }

  lemma DivDivParts(x: nat, a: nat, c: nat, q: nat, r: nat, q2: nat, r2: nat)
    requires a > 0 && c > 0 && r < a && r2 < c
    requires x == q * a + r && q == q2 * c + r2
    ensures a * c > 0
    ensures x / (a * c) == q2 && x % (a * c) == a * r2 + r
  {
    assert (q2 * c + r2) * a == q2 * (a * c) + a * r2;
    MultipleGap(r2, c, a);
    DivUnique(x, a * c, q2, a * r2 + r);
  }

  lemma ModSmall(x: nat, m: nat)
    requires x < m
    ensures x % m == x && x / m == 0
  {
  }

  /** x >> d. */
  function Shr(x: nat, d: nat): (r: nat)
    ensures r <= x
  {
    DivAtMost(x, Pow2(d));
    x / Pow2(d)
  }

  /** x << d. */
  function Shl(x: nat, d: nat): nat {
    Pow2(d) * x
  }

  lemma ShrShr(x: nat, a: nat, b: nat)
    ensures Shr(Shr(x, a), b) == Shr(x, a + b)
  {
    hide Pow2;
    Pow2Add(a, b);
    DivDiv(x, Pow2(a), Pow2(b));
  }

  lemma DivAtMost(x: nat, m: nat)
    requires m > 0
    ensures 0 <= x / m <= x
  {
    var q := x / m;
    assert x == q * m + x % m;
    NegativeProduct(q, m);
    if q > x { MulLe(x + 1, q, m); MulLe(1, m, x + 1); }
  }

  lemma NegativeProduct(q: int, m: int)
    requires m > 0
    ensures q < 0 ==> q * m <= -m
  {
  }

  // ----- nextlg -----

  /** ceil(log2(v)): the least r with v <= 2^r. */
  function NextLg(v: nat): (r: nat)
    ensures v <= Pow2(r)
    ensures r > 0 ==> Pow2(r - 1) < v
  {
    if v <= 1 then 0 else 1 + NextLg((v + 1) / 2)
  }

  /** NextLg is exactly the lower adjoint of Pow2. */
  lemma {:induction false} NextLgLeast(v: nat, r: nat)
    ensures NextLg(v) <= r <==> v <= Pow2(r)
  {
    var k := NextLg(v);
    if k <= r {
      Pow2Mono(k, r);
    } else {
      Pow2Mono(r, k - 1);
    }
  }

  /** The two bounds determine NextLg. */
  lemma NextLgIs(v: nat, r: nat)
    requires v <= Pow2(r) && (r > 0 ==> Pow2(r - 1) < v)
    ensures NextLg(v) == r
  {
    NextLgLeast(v, r);
    if r > 0 { NextLgLeast(v, r - 1); }
  }

  lemma NextLgMono(u: nat, v: nat)
    requires u <= v
    ensures NextLg(u) <= NextLg(v)
  {
    NextLgLeast(u, NextLg(v));
  }

  lemma NextLgPow2(n: nat)
    ensures NextLg(Pow2(n)) == n
  {
    NextLgIs(Pow2(n), n);
  }

  lemma DoubleProduct(p: nat, v: nat)
    requires p > 0 && v > 0
    ensures (2 * p) * v == 2 * (p * v) && p * v > 0
  {
  }

  lemma NextLgDouble(u: nat)
    requires u > 0
    ensures NextLg(2 * u) == NextLg(u) + 1
  {
    assert (2 * u + 1) / 2 == u;
  }

  /** Scaling by 2^d costs exactly d more address bits. */
  lemma {:induction false} NextLgScale(v: nat, d: nat)
    requires v > 0
    ensures NextLg(Pow2(d) * v) == NextLg(v) + d
  {
    if d > 0 {
      NextLgScale(v, d - 1);
      DoubleProduct(Pow2(d - 1), v);
      NextLgDouble(Pow2(d - 1) * v);
    }
  }

  /** The loop of the source: increment r until 1<<r reaches the value. */
  method ComputeNextLg(v: nat) returns (r: nat)
    requires v <= Pow2(63)
    ensures r == NextLg(v)
    ensures r <= 63
  {
    r := 0;
    while Pow2(r) < v
      invariant r <= NextLg(v)
      decreases NextLg(v) - r
    {
      NextLgLeast(v, r);
      r := r + 1;
    }
    NextLgLeast(v, r);
    NextLgLeast(v, 63);
  }

  // ----- alignment -----

  /** The least multiple of 2^p at or above s. */
  function AlignUp(s: nat, p: nat): (r: nat)
    ensures s <= r < s + Pow2(p) && r % Pow2(p) == 0
  {
    var x := s + Pow2(p) - 1;
    assert x == (x / Pow2(p)) * Pow2(p) + x % Pow2(p);
    MulMod(x / Pow2(p), Pow2(p));
    x - x % Pow2(p)
  }

  lemma AlignUpLeast(s: nat, p: nat, t: nat)
    requires s <= t && t % Pow2(p) == 0
    ensures AlignUp(s, p) <= t
  {
    LeastMultiple(AlignUp(s, p), t, Pow2(p));
  }

  lemma LeastMultiple(a: nat, t: nat, m: nat)
    requires m > 0 && a % m == 0 && t % m == 0 && a < t + m
    ensures a <= t
  {
    var qa, qt := a / m, t / m;
    assert a == qa * m && t == qt * m;
    if qt < qa {
      MultipleGap(qt, qa, m);
    } else {
      MulLe(qa, qt, m);
    }
  }

  lemma AlignUpFixed(s: nat, p: nat)
    requires s % Pow2(p) == 0
    ensures AlignUp(s, p) == s
  {
    AlignUpLeast(s, p, s);
  }

  lemma AlignUpMono(s: nat, t: nat, p: nat, q: nat)
    requires s <= t && p <= q
    ensures AlignUp(s, p) <= AlignUp(t, q)
  {
    MultipleOfPow2(AlignUp(t, q), p, q);
    AlignUpLeast(s, p, AlignUp(t, q));
  }

  lemma AlignUpScale(s: nat, p: nat, d: nat)
    ensures AlignUp(Pow2(d) * s, p + d) == Pow2(d) * AlignUp(s, p)
  {
    var a, b := AlignUp(s, p), AlignUp(Pow2(d) * s, p + d);
    Pow2Add(p, d);
    MulLe(s, a, Pow2(d));
    ScaleMultiple(a, Pow2(p), Pow2(d));
    AlignUpLeast(Pow2(d) * s, p + d, Pow2(d) * a);
    var t := Unscale(s, b, Pow2(p), Pow2(d));
    AlignUpLeast(s, p, t);
    MulLe(a, t, Pow2(d));
  }

  lemma ScaleMultiple(a: nat, m: nat, k: nat)
    requires m > 0 && k > 0 && a % m == 0
    ensures m * k > 0 && (k * a) % (m * k) == 0
  {
    var q := a / m;
    assert a == q * m;
    assert k * (q * m) == q * (m * k);
    assert m * k > 0;
    MulMod(q, m * k);
  }

  lemma Unscale(s: nat, b: nat, m: nat, k: nat) returns (t: nat)
    requires m > 0 && k > 0 && m * k > 0 && b % (m * k) == 0 && k * s <= b
    ensures b == k * t && t % m == 0 && s <= t
  {
    var q := b / (m * k);
    t := q * m;
    assert q * (m * k) == k * (q * m);
    MulMod(q, m);
    if t < s { MultipleGap(t, s, k); }
  }

  lemma AlignUpIdem(s: nat, p: nat, q: nat)
    requires p <= q
    ensures AlignUp(AlignUp(s, p), q) == AlignUp(s, q)
  {
    AlignUpMono(s, AlignUp(s, p), q, q);
    MultipleOfPow2(AlignUp(s, q), p, q);
    AlignUpLeast(s, p, AlignUp(s, q));
    AlignUpLeast(AlignUp(s, p), q, AlignUp(s, q));
  }

  lemma AlignUpAdd(s: nat, p: nat)
    ensures AlignUp(s, p) + Pow2(p) == AlignUp(s + Pow2(p), p)
  {
    var m := Pow2(p);
    AddMultiple(AlignUp(s, p), 1, m);
    AlignUpLeast(s + m, p, AlignUp(s, p) + m);
    var b := AlignUp(s + m, p);
    SubMultiple(b, m, m);
    AlignUpLeast(s, p, b - m);
  }

  // ----- bitwise operators -----

  function And(a: nat, b: nat): (r: nat)
    ensures r <= a && r <= b
  {
    if a == 0 || b == 0 then 0
    else 2 * And(a / 2, b / 2) + (if a % 2 == 1 && b % 2 == 1 then 1 else 0)
  }

  function Or(a: nat, b: nat): (r: nat)
  {
    if a == 0 then b else if b == 0 then a
    else 2 * Or(a / 2, b / 2) + (if a % 2 == 1 || b % 2 == 1 then 1 else 0)
  }

  lemma ModDouble(x: nat, m: nat)
    requires m > 0
    ensures x % (2 * m) == 2 * ((x / 2) % m) + x % 2
  {
    DivDiv(x, 2, m);
  }

  lemma ModPow2Step(x: nat, h: nat)
    requires h > 0
    ensures x % Pow2(h) == 2 * ((x / 2) % Pow2(h - 1)) + x % 2
  {
    ModDouble(x, Pow2(h - 1));
  }

  lemma {:induction false} AndLowMask(x: nat, h: nat)
    ensures And(x, Pow2(h) - 1) == x % Pow2(h)
  {
    Pow2Succ(h);
    if h > 0 {
      hide And, Pow2;
      AndLowMask(x / 2, h - 1);
      AndLowStep(x, Pow2(h - 1));
    }
  }

  lemma AndLowStep(x: nat, p: nat)
    requires p > 0 && And(x / 2, p - 1) == (x / 2) % p
    ensures And(x, 2 * p - 1) == x % (2 * p)
  {
    hide And;
    AndOddMask(x, p - 1);
    ModDouble(x, p);
    assert 2 * p - 1 == 2 * (p - 1) + 1;
  }

  /** The bits from l up and the bits below l make up the bits below h. */
  lemma {:induction false} AndParts(x: nat, l: nat, h: nat)
    requires l <= h
    ensures Pow2(h) >= Pow2(l)
    ensures And(x, Pow2(h) - Pow2(l)) + And(x, Pow2(l) - 1) == And(x, Pow2(h) - 1)
  {
    hide And, Pow2;
    Pow2Succ(h);
    Pow2Succ(l);
    AndZero(x);
    if l > 0 {
      var p, q := Pow2(h - 1), Pow2(l - 1);
      AndParts(x / 2, l - 1, h - 1);
      AndPartsStep(x, p - q, q - 1, p - 1);
      assert Pow2(h) - Pow2(l) == 2 * (p - q);
      assert Pow2(l) - 1 == 2 * (q - 1) + 1;
      assert Pow2(h) - 1 == 2 * (p - 1) + 1;
    }
  }

  lemma AndZero(x: nat)
    ensures And(x, 0) == 0
  {
  }

  lemma AndPartsStep(x: nat, a: nat, b: nat, c: nat)
    requires And(x / 2, a) + And(x / 2, b) == And(x / 2, c)
    ensures And(x, 2 * a) + And(x, 2 * b + 1) == And(x, 2 * c + 1)
  {
    hide And;
    AndEvenMask(x, a);
    AndOddMask(x, b);
    AndOddMask(x, c);
  }

  /** Masking with ones in bit positions l..h-1 keeps exactly those bits. */
  lemma AndMask(x: nat, l: nat, h: nat)
    requires l <= h
    ensures Pow2(h) >= Pow2(l)
    ensures And(x, Pow2(h) - Pow2(l)) == x % Pow2(h) - x % Pow2(l)
  {
    hide And, Pow2;
    AndParts(x, l, h);
    AndLowMask(x, h);
    AndLowMask(x, l);
  }

  lemma AndEvenMask(x: nat, m: nat)
    ensures And(x, 2 * m) == 2 * And(x / 2, m)
  {
    assert (2 * m) / 2 == m && (2 * m) % 2 == 0;
  }

  lemma AndOddMask(x: nat, m: nat)
    ensures And(x, 2 * m + 1) == 2 * And(x / 2, m) + x % 2
  {
    assert (2 * m + 1) / 2 == m && (2 * m + 1) % 2 == 1;
  }
}
