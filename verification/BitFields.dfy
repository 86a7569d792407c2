/** Algebra of And and Or on disjoint bit fields. */
module BitFields {
  import opened Bits

  lemma AndStep(a: nat, b: nat)
    ensures And(a, b) == 2 * And(a / 2, b / 2) + (if a % 2 == 1 && b % 2 == 1 then 1 else 0)
  {
  }

  lemma OrStep(a: nat, b: nat)
    ensures Or(a, b) == 2 * Or(a / 2, b / 2) + (if a % 2 == 1 || b % 2 == 1 then 1 else 0)
    decreases a + b
  {
    if a == 0 && b > 0 { assert Or(0, b / 2) == b / 2; }
    if b == 0 && a > 0 { assert Or(a / 2, 0) == a / 2; }
  }

  lemma OrHalf(a: nat, b: nat)
    ensures Or(a, b) / 2 == Or(a / 2, b / 2)
    ensures Or(a, b) % 2 == (if a % 2 == 1 || b % 2 == 1 then 1 else 0)
  {
    OrStep(a, b);
  }

  lemma AndHalf(a: nat, b: nat)
    ensures And(a, b) / 2 == And(a / 2, b / 2)
    ensures And(a, b) % 2 == (if a % 2 == 1 && b % 2 == 1 then 1 else 0)
  {
    AndStep(a, b);
  }

  lemma OrWithZero(a: nat, b: nat)
    ensures a == 0 ==> Or(a, b) == b
    ensures b == 0 ==> Or(a, b) == a
  {
  }

  /** Two values agree under a combined mask exactly when they agree under each part. */
  lemma {:induction false} AgreeUnderOr(x: nat, y: nat, m: nat, n: nat)
    ensures And(x, Or(m, n)) == And(y, Or(m, n)) <==> And(x, m) == And(y, m) && And(x, n) == And(y, n)
    decreases m + n
  {
    if m > 0 && n > 0 {
      OrHalf(m, n);
      AgreeUnderOr(x / 2, y / 2, m / 2, n / 2);
      AndHalf(x, Or(m, n)); AndHalf(y, Or(m, n));
      AndHalf(x, m); AndHalf(y, m);
      AndHalf(x, n); AndHalf(y, n);
    }
  }

  lemma {:induction false} AndOverOr(a: nat, b: nat, m: nat)
    ensures And(Or(a, b), m) == Or(And(a, m), And(b, m))
  {
    if a > 0 && b > 0 && m > 0 {
      AndOverOr(a / 2, b / 2, m / 2);
      OrHalf(a, b);
      AndHalf(Or(a, b), m); AndHalf(a, m); AndHalf(b, m);
      OrHalf(And(a, m), And(b, m));
    }
  }

  lemma {:induction false} AndTwice(x: nat, m: nat)
    ensures And(And(x, m), m) == And(x, m)
  {
    if x > 0 && m > 0 {
      AndTwice(x / 2, m / 2);
      AndHalf(x, m);
      AndHalf(And(x, m), m);
    }
  }

  /** A value below 2^w and a multiple of 2^w have no bit in common. */
  lemma {:induction false} DisjointFields(a: nat, b: nat, w: nat)
    requires a < Pow2(w) && b % Pow2(w) == 0
    ensures And(a, b) == 0
    decreases w
  {
    if w > 0 {
      ModPow2Step(b, w);
      DisjointFields(a / 2, b / 2, w - 1);
      AndStep(a, b);
    }
  }

  lemma HalfLow(x: nat, w: nat)
    requires w > 0
    ensures (x % Pow2(w)) / 2 == (x / 2) % Pow2(w - 1) && (x % Pow2(w)) % 2 == x % 2
  {
    hide Pow2;
    ModPow2Step(x, w);
  }

  /** A mask below 2^w sees only the low w bits. */
  lemma {:induction false} AndLowPart(x: nat, m: nat, w: nat)
    requires m < Pow2(w)
    ensures And(x, m) == And(x % Pow2(w), m)
    decreases w
  {
    hide And, Pow2;
    Pow2Succ(w);
    if w > 0 {
      HalfLow(x, w);
      AndLowPart(x / 2, m / 2, w - 1);
      AndSameStep(x, x % Pow2(w), m);
    }
  }

  lemma AndSameStep(x: nat, y: nat, m: nat)
    requires x % 2 == y % 2 && And(x / 2, m / 2) == And(y / 2, m / 2)
    ensures And(x, m) == And(y, m)
  {
  }

  lemma {:induction false} AndShifted(x: nat, m: nat, d: nat)
    ensures And(x, Pow2(d) * m) == Pow2(d) * And(Shr(x, d), m)
    decreases d
  {
    if d == 0 {
      assert Shr(x, 0) == x;
    } else {
      AndShifted(x / 2, m, d - 1);
      DivDiv(x, 2, Pow2(d - 1));
      AndEvenMask(x, Pow2(d - 1) * m);
      Reassociate(Pow2(d - 1), m);
      Reassociate(Pow2(d - 1), And(Shr(x, d), m));
    }
  }

  lemma Reassociate(p: nat, m: nat)
    ensures (2 * p) * m == 2 * (p * m)
  {
  }

  lemma {:induction false} AndOfMultiple(x: nat, m: nat, w: nat)
    requires m % Pow2(w) == 0
    ensures And(x, m) % Pow2(w) == 0
    decreases w
  {
    if w > 0 {
      ModPow2Step(m, w);
      AndOfMultiple(x / 2, m / 2, w - 1);
      AndHalf(x, m);
      ModPow2Step(And(x, m), w);
    }
  }

  lemma {:induction false} OrOfMultiples(m: nat, n: nat, w: nat)
    requires m % Pow2(w) == 0 && n % Pow2(w) == 0
    ensures Or(m, n) % Pow2(w) == 0
    decreases w
  {
    if w > 0 {
      ModPow2Step(m, w);
      ModPow2Step(n, w);
      OrOfMultiples(m / 2, n / 2, w - 1);
      OrHalf(m, n);
      ModPow2Step(Or(m, n), w);
    }
  }

  /** And and Or act on the low w bits alone. */
  lemma {:induction false} LowAnd(x: nat, y: nat, w: nat)
    ensures And(x, y) % Pow2(w) == And(x % Pow2(w), y % Pow2(w))
    decreases w
  {
    if w == 0 {
      NothingBelow(x, y);
    } else {
      hide And, Pow2;
      LowAnd(x / 2, y / 2, w - 1);
      AndHalf(x, y);
      HalfLow(x, w); HalfLow(y, w); HalfLow(And(x, y), w);
      AndStep(x % Pow2(w), y % Pow2(w));
    }
  }

  lemma {:induction false} LowOr(x: nat, y: nat, w: nat)
    ensures Or(x, y) % Pow2(w) == Or(x % Pow2(w), y % Pow2(w))
    decreases w
  {
    if w == 0 {
      NothingBelow(x, y);
    } else {
      hide Or, Pow2;
      LowOr(x / 2, y / 2, w - 1);
      OrHalf(x, y);
      HalfLow(x, w); HalfLow(y, w); HalfLow(Or(x, y), w);
      OrStep(x % Pow2(w), y % Pow2(w));
    }
  }

  lemma NothingBelow(x: nat, y: nat)
    ensures And(x, y) % Pow2(0) == 0 == And(x % Pow2(0), y % Pow2(0))
    ensures Or(x, y) % Pow2(0) == 0 == Or(x % Pow2(0), y % Pow2(0))
  {
  }

  lemma {:induction false} AndHighPart(x: nat, y: nat, w: nat)
    ensures Shr(And(x, y), w) == And(Shr(x, w), Shr(y, w))
    decreases w
  {
    hide And, Shr;
    if w == 0 {
      ShrNothing(x); ShrNothing(y); ShrNothing(And(x, y));
    } else {
      AndHalf(x, y);
      AndHighPart(x / 2, y / 2, w - 1);
      ShrHalf(x, w); ShrHalf(y, w); ShrHalf(And(x, y), w);
    }
  }

  lemma ShrNothing(x: nat)
    ensures Shr(x, 0) == x
  {
  }

  lemma ShrHalf(x: nat, w: nat)
    requires w > 0
    ensures Shr(x, w) == Shr(x / 2, w - 1)
  {
    hide Pow2;
    Pow2Succ(w);
    DivDiv(x, 2, Pow2(w - 1));
  }

  lemma {:induction false} OrBelow(x: nat, y: nat, w: nat)
    requires x < Pow2(w) && y < Pow2(w)
    ensures Or(x, y) < Pow2(w)
    decreases w
  {
    hide Or;
    if w == 0 {
      OrWithZero(x, y);
    } else {
      OrBelow(x / 2, y / 2, w - 1);
      OrHalf(x, y);
    }
  }

  lemma {:induction false} OrIsZero(m: nat, n: nat)
    ensures Or(m, n) == 0 <==> m == 0 && n == 0
    decreases m + n
  {
    if m > 0 && n > 0 {
      OrIsZero(m / 2, n / 2);
      OrHalf(m, n);
    }
  }
}
