/** What the operators of ast.cpp compute, stated of eval() on trees whose operands have any
    64-bit values, and without the functions that define it. */
module Arithmetic {
  import opened Options
  import opened Bits
  import opened Expressions

  predicate IsLong(x: int) { -TWO63 <= x < TWO63 }

  predicate IsInt(x: int) { 0 - TWO31 <= x < TWO31 }

  predicate Congruent(x: int, y: int, m: int)
    requires m > 0
  {
    (x - y) % m == 0
  }

  /** The operands of a binary operation evaluate to l and r. */
  predicate Operands(a: Ast, b: Ast, l: int, r: int) {
    Eval(a) == Some(l) && Eval(b) == Some(r) && IsLong(l) && IsLong(r)
  }

  // ----- congruence -----

  lemma CongruentBy(x: int, y: int, q: int, m: int)
    requires m > 0 && x - y == q * m
    ensures Congruent(x, y, m)
  {
    var d, e := (x - y) / m, (x - y) % m;
    assert (q - d) * m == e;
    Apart(q - d, m);
  }

  lemma Apart(q: int, m: int)
    requires m > 0
    ensures q == 0 || q * m >= m || q * m <= -m
  {
    NegativeProduct(q, m);
    NegativeProduct(-q, m);
  }

  /** Congruent numbers less than m apart are the same. */
  lemma CongruentApart(x: int, y: int, m: int)
    requires m > 0 && Congruent(x, y, m) && -m < x - y < m
    ensures x == y
  {
    var q := (x - y) / m;
    assert x - y == q * m;
    Apart(q, m);
  }

  lemma CongruentTrans(x: int, y: int, z: int, m: int)
    requires m > 0 && Congruent(x, y, m) && Congruent(y, z, m)
    ensures Congruent(x, z, m)
  {
    var p, q := (x - y) / m, (y - z) / m;
    assert x - z == (p + q) * m by {
      assert (p + q) * m == p * m + q * m;
    }
    CongruentBy(x, z, p + q, m);
  }

  lemma CongruentSym(x: int, y: int, m: int)
    requires m > 0 && Congruent(x, y, m)
    ensures Congruent(y, x, m)
  {
    var q := (x - y) / m;
    assert y - x == -q * m;
    CongruentBy(y, x, -q, m);
  }

  /** Long is the one value in range congruent to its argument; so is Int32. */
  lemma LongIsOnly(x: int, y: int)
    ensures y == Long(x) <==> IsLong(y) && Congruent(y, x, TWO64)
  {
    LongFits(x);
    if IsLong(y) && Congruent(y, x, TWO64) { OnlyOne(y, Long(x), x, TWO64); }
  }

  lemma Int32IsOnly(x: int, y: int)
    ensures y == Int32(x) <==> IsInt(y) && Congruent(y, x, TWO32)
  {
    Int32Fits(x);
    if IsInt(y) && Congruent(y, x, TWO32) { OnlyOne(y, Int32(x), x, TWO32); }
  }

  lemma OnlyOne(y: int, z: int, x: int, m: int)
    requires m > 0 && Congruent(y, x, m) && Congruent(z, x, m) && -m < y - z < m
    ensures y == z
  {
    hide Congruent;
    CongruentSym(z, x, m);
    CongruentTrans(y, x, z, m);
    CongruentApart(y, z, m);
  }

  lemma LongFits(x: int)
    ensures IsLong(Long(x)) && Congruent(Long(x), x, TWO64)
  {
    hide Congruent;
    var q := x / TWO64;
    assert x == q * TWO64 + x % TWO64;
    CongruentBy(Long(x), x, if x % TWO64 < TWO63 then -q else -q - 1, TWO64);
  }

  lemma Int32Fits(x: int)
    ensures IsInt(Int32(x)) && Congruent(Int32(x), x, TWO32)
  {
    hide Congruent;
    var q := x / TWO32;
    assert x == q * TWO32 + x % TWO32;
    CongruentBy(Int32(x), x, if x % TWO32 < TWO31 then -q else -q - 1, TWO32);
  }

  // ----- sums and products -----

  /** What a binary operation evaluates to. */
  function Result(op: char, a: Ast, b: Ast): Option<int> { Eval(Branch(op, a, b)) }

  /** The 64-bit value congruent to x, and x itself when it fits. */
  predicate Wrapped(result: Option<int>, x: int) {
    && result.Some? && IsLong(result.value) && Congruent(result.value, x, TWO64)
    && (IsLong(x) ==> result.value == x)
  }

  lemma LongWraps(x: int)
    ensures Wrapped(Some(Long(x)), x)
  {
    hide Long, Congruent;
    LongFits(x);
    if IsLong(x) { CongruentBy(x, x, 0, TWO64); LongIsOnly(x, x); }
  }

  /** '+', '-' and '*' are those of the integers, wrapped; and '-' undoes '+', whatever wraps. */
  lemma SumsAndProducts(a: Ast, b: Ast, l: int, r: int)
    requires Operands(a, b, l, r)
    ensures Wrapped(Result('+', a, b), l + r)
    ensures Wrapped(Result('-', a, b), l - r)
    ensures Wrapped(Result('*', a, b), l * r)
    ensures Result('-', Branch('+', a, b), b) == Some(l)
  {
    hide Long, Wrapped;
    LongWraps(l + r);
    LongWraps(l - r);
    LongWraps(l * r);
    MinusUndoesPlus(l, r);
  }

  lemma MinusUndoesPlus(l: int, r: int)
    requires IsLong(l)
    ensures Long(Long(l + r) - r) == l
  {
    hide Long;
    var s := Long(l + r);
    LongFits(l + r);
    CongruentSym(s, l + r, TWO64);
    assert l - (s - r) == l + r - s;
    LongIsOnly(s - r, l);
  }

  // ----- division -----

  /** The sign of a remainder that is not zero is that of the number divided. */
  predicate DividesTowardZero(l: int, r: int, q: int, m: int) {
    l == q * r + m && (if r > 0 then -r < m < r else r < m < -r) && (m < 0 ==> l < 0) && (m > 0 ==> l > 0)
  }

  /** '/' and '%' have values for the same operands, the ones C++ defines, and are then the
      quotient and remainder of division toward zero. */
  lemma Division(a: Ast, b: Ast, l: int, r: int)
    requires Operands(a, b, l, r)
    ensures Result('/', a, b).Some? <==> r != 0 && !(l == -TWO63 && r == -1)
    ensures Result('%', a, b).Some? <==> Result('/', a, b).Some?
    ensures Result('/', a, b).Some? ==>
      var q, m := Result('/', a, b).value, Result('%', a, b).value;
      IsLong(q) && IsLong(m) && DividesTowardZero(l, r, q, m)
  {
    hide Quotient;
    if r != 0 && !(l == -TWO63 && r == -1) {
      TowardZero(l, r);
      var q, m := Quotient(l, r), l - r * Quotient(l, r);
      assert Result('/', a, b) == Some(q);
      assert Result('%', a, b) == Some(m);
    }
  }

  lemma TowardZero(l: int, r: int)
    requires r != 0 && IsLong(l) && IsLong(r) && !(l == -TWO63 && r == -1)
    ensures var q := Quotient(l, r); IsLong(q) && IsLong(l - r * q) && DividesTowardZero(l, r, q, l - r * q)
  {
    hide Quotient;
    var u: nat, v: nat := if l < 0 then -l else l, if r < 0 then -r else r;
    var q, m := u / v, u % v;
    Magnitudes(u, v, q, m);
    QuotientSign(l, r, u, v);
    assert v == r || v == -r;
    SignedProducts(q, v);
    if (l < 0) == (r < 0) {
      assert Quotient(l, r) == q;
    } else {
      assert Quotient(l, r) == -q;
    }
  }

  lemma SignedProducts(q: int, v: int)
    ensures v * q == q * v && v * -q == -(q * v) && -v * q == -(q * v) && -v * -q == q * v
    ensures q * -v == -(q * v) && -q * v == -(q * v) && -q * -v == q * v
  {
  }

  lemma QuotientSign(l: int, r: int, u: nat, v: nat)
    requires r != 0 && u == (if l < 0 then -l else l) && v == (if r < 0 then -r else r)
    ensures Quotient(l, r) == if (l < 0) == (r < 0) then u / v else -(u / v)
  {
  }

  lemma Magnitudes(u: nat, v: nat, q: int, m: int)
    requires v > 0 && q == u / v && m == u % v
    ensures u == q * v + m && 0 <= m < v && 0 <= q <= u && (v > 1 ==> 2 * q <= u)
  {
    DivAtMost(u, v);
    if v > 1 { MulLe(2, v, q); }
  }

  // ----- shifts -----

  /** A left shift multiplies by a power of two and wraps; a right shift divides by it and
      rounds down. */
  lemma Shifts(a: Ast, b: Ast, l: int, r: int)
    requires Operands(a, b, l, r)
    ensures Result('u', a, b).Some? <==> 0 <= r < 64
    ensures Result('d', a, b).Some? <==> 0 <= r < 64
    ensures 0 <= r < 64 ==>
      var v := Result('d', a, b).value;
      Wrapped(Result('u', a, b), l * Pow2(r)) && v * Pow2(r) <= l < (v + 1) * Pow2(r) && IsLong(v)
  {
    hide Long, Wrapped, Pow2;
    if 0 <= r < 64 {
      var p: int := Pow2(r);
      LongWraps(l * p);
      FloorDivision(l, p);
      assert Result('d', a, b) == Some(l / p);
    }
  }

  lemma FloorDivision(l: int, p: int)
    requires p > 0
    ensures (l / p) * p <= l < (l / p + 1) * p
    ensures l >= 0 ==> 0 <= l / p <= l
    ensures l < 0 ==> l <= l / p < 0
  {
    FloorBounds(l, p, l / p, l % p);
  }

  lemma FloorBounds(l: int, p: int, q: int, m: int)
    requires p > 0 && 0 <= m < p && l == q * p + m
    ensures q * p <= l < (q + 1) * p
    ensures l >= 0 ==> 0 <= q <= l
    ensures l < 0 ==> l <= q < 0
  {
    Spread(q, p);
    Spread(q + 1, p);
    assert (q + 1) * p == q * p + p;
  }

  lemma Spread(q: int, p: int)
    requires p > 0
    ensures q >= 0 ==> q * p >= q
    ensures q <= 0 ==> q * p <= q
  {
    if q >= 0 {
      MulLe(1, p, q);
    } else {
      MulLe(1, p, -q);
      SignedProducts(-q, p);
    }
  }

  // ----- bits -----

  /** Bit k of a number in two's complement. */
  predicate BitOf(x: int, k: nat) { (x / Pow2(k)) % 2 == 1 }

  lemma BitZero(x: int)
    ensures BitOf(x, 0) <==> x % 2 == 1
  {
    assert Pow2(0) == 1 && x / 1 == x;
  }

  lemma BitNext(x: int, k: nat)
    requires k > 0
    ensures BitOf(x, k) <==> BitOf(x / 2, k - 1)
  {
    HalfThenMore(x, Pow2(k - 1));
  }

  lemma HalfThenMore(x: int, p: int)
    requires p > 0
    ensures (x / 2) / p == x / (2 * p)
  {
    var h, q := x / 2, (x / 2) / p;
    assert h == q * p + h % p && x == 2 * h + x % 2;
    assert q * (2 * p) == 2 * (q * p);
    FloorIs(x, 2 * p, q);
  }

  lemma FloorIs(x: int, m: int, q: int)
    requires m > 0 && q * m <= x < q * m + m
    ensures x / m == q
  {
    var d := x / m;
    assert (d - q) * m == d * m - q * m;
    Apart(d - q, m);
  }

  /** Congruent numbers have the same 64 bits. */
  lemma {:induction false} BitsOfCongruent(x: int, y: int, q: int, k: nat, n: nat)
    requires k < n && x == y + q * Pow2(n)
    ensures BitOf(x, k) <==> BitOf(y, k)
    decreases k
  {
    hide Pow2, BitOf;
    Pow2Succ(n);
    var p := Pow2(n - 1);
    assert q * (2 * p) == 2 * (q * p);
    if k == 0 {
      BitZero(x);
      BitZero(y);
    } else {
      BitNext(x, k);
      BitNext(y, k);
      BitsOfCongruent(x / 2, y / 2, q, k - 1, n - 1);
    }
  }

  /** Two longs with the same bits are the same. */
  lemma {:induction false} BitsDetermine(x: int, y: int, n: nat)
    requires 0 - Pow2(n) <= x < Pow2(n) && 0 - Pow2(n) <= y < Pow2(n)
    requires forall k :: 0 <= k <= n ==> (BitOf(x, k) <==> BitOf(y, k))
    ensures x == y
    decreases n
  {
    hide Pow2, BitOf;
    Pow2Succ(n);
    BitZero(x);
    BitZero(y);
    if n > 0 {
      forall k | 0 <= k <= n - 1 ensures BitOf(x / 2, k) <==> BitOf(y / 2, k) {
        BitNext(x, k + 1);
        BitNext(y, k + 1);
      }
      BitsDetermine(x / 2, y / 2, n - 1);
    }
  }

  lemma {:induction false} OrBits(x: nat, y: nat, k: nat)
    ensures BitOf(Or(x, y), k) <==> BitOf(x, k) || BitOf(y, k)
    decreases k
  {
    hide Pow2, BitOf, Or;
    OrHalf(x, y);
    BitZero(x);
    BitZero(y);
    BitZero(Or(x, y));
    if k > 0 {
      BitNext(x, k);
      BitNext(y, k);
      BitNext(Or(x, y), k);
      OrBits(x / 2, y / 2, k - 1);
    }
  }

  lemma OrHalf(x: nat, y: nat)
    ensures Or(x, y) / 2 == Or(x / 2, y / 2)
    ensures Or(x, y) % 2 == 1 <==> x % 2 == 1 || y % 2 == 1
  {
  }

  lemma {:induction false} AndBits(x: nat, y: nat, k: nat)
    ensures BitOf(And(x, y), k) <==> BitOf(x, k) && BitOf(y, k)
    decreases k
  {
    hide Pow2, BitOf, And;
    AndHalf(x, y);
    BitZero(x);
    BitZero(y);
    BitZero(And(x, y));
    if k > 0 {
      BitNext(x, k);
      BitNext(y, k);
      BitNext(And(x, y), k);
      AndBits(x / 2, y / 2, k - 1);
    }
  }

  lemma AndHalf(x: nat, y: nat)
    ensures And(x, y) / 2 == And(x / 2, y / 2)
    ensures And(x, y) % 2 == 1 <==> x % 2 == 1 && y % 2 == 1
  {
  }

  /** The sum less twice the carries is the exclusive or. */
  lemma {:induction false} XorBits(x: nat, y: nat, k: nat)
    ensures BitOf(x + y - 2 * And(x, y), k) <==> (BitOf(x, k) <==> !BitOf(y, k))
    decreases k
  {
    hide Pow2, BitOf, And;
    AndHalf(x, y);
    BitZero(x);
    BitZero(y);
    var z := x + y - 2 * And(x, y);
    BitZero(z);
    if k > 0 {
      BitNext(x, k);
      BitNext(y, k);
      BitNext(z, k);
      XorBits(x / 2, y / 2, k - 1);
    }
  }

  lemma {:induction false} NotBits(x: int, k: nat)
    ensures BitOf(-x - 1, k) <==> !BitOf(x, k)
    decreases k
  {
    hide Pow2, BitOf;
    BitZero(x);
    BitZero(-x - 1);
    if k > 0 {
      BitNext(x, k);
      BitNext(-x - 1, k);
      NotBits(x / 2, k - 1);
    }
  }

  lemma LongBits(x: int, k: nat)
    requires k < 64
    ensures BitOf(Long(x), k) <==> BitOf(x, k)
    ensures BitOf(Unsigned(x), k) <==> BitOf(x, k)
  {
    hide BitOf;
    Pow2Sixty4();
    var q := x / TWO64;
    assert x == q * TWO64 + x % TWO64;
    BitsOfCongruent(x, Unsigned(x), q, k, 64);
    BitsOfCongruent(x, Long(x), if x % TWO64 < TWO63 then q else q + 1, k, 64);
  }

  lemma Pow2Sixty4()
    ensures Pow2(64) == TWO64 && Pow2(63) == TWO63
  {
    hide Pow2;
    Pow2Succ(64);
    Pow2Add(32, 32);
    Pow2Add(16, 16);
    Pow2Add(8, 8);
    Pow2Eight();
  }

  lemma Pow2Eight()
    ensures Pow2(8) == 256
  {
  }

  /** '|', '&' and '^' combine the operands bit by bit, '~' negates each bit, and 64 bits
      determine a long. */
  lemma BitwiseOperators(a: Ast, b: Ast, l: int, r: int, k: nat)
    requires Operands(a, b, l, r) && k < 64
    ensures IsBits(Result('|', a, b), k, BitOf(l, k) || BitOf(r, k))
    ensures IsBits(Result('&', a, b), k, BitOf(l, k) && BitOf(r, k))
    ensures IsBits(Result('^', a, b), k, BitOf(l, k) != BitOf(r, k))
    ensures IsBits(Eval(Single('~', a)), k, !BitOf(l, k))
  {
    hide BitOf, Long, Or, And, Unsigned;
    var x, y := Unsigned(l), Unsigned(r);
    LongBits(l, k);
    LongBits(r, k);
    LongBits(Or(x, y), k);
    LongBits(And(x, y), k);
    LongBits(x + y - 2 * And(x, y), k);
    LongFits(Or(x, y));
    LongFits(And(x, y));
    LongFits(x + y - 2 * And(x, y));
    OrBits(x, y, k);
    AndBits(x, y, k);
    XorBits(x, y, k);
    NotBits(l, k);
  }

  /** A long whose bit k is as given. */
  predicate IsBits(result: Option<int>, k: nat, bit: bool) {
    result.Some? && IsLong(result.value) && (BitOf(result.value, k) <==> bit)
  }

  lemma LongsWithSameBits(x: int, y: int)
    requires IsLong(x) && IsLong(y) && forall k :: 0 <= k < 64 ==> (BitOf(x, k) <==> BitOf(y, k))
    ensures x == y
  {
    hide BitOf;
    Pow2Sixty4();
    BitsDetermine(x, y, 63);
  }

  // ----- comparisons, logic and the conditional -----

  /** Whether an operation evaluates to 1; LogicIsBoolean says that it is otherwise 0. */
  predicate Holds(op: char, a: Ast, b: Ast) { Result(op, a, b) == Some(1) }

  /** The comparisons are one total order, that of the integers; no operand may be undefined. */
  lemma Comparisons(a: Ast, b: Ast, c: Ast)
    requires Eval(a).Some? && Eval(b).Some? && Eval(c).Some?
    ensures Holds('<', a, b) <==> Eval(a).value < Eval(b).value
    ensures Holds('<', a, b) && Holds('<', b, c) ==> Holds('<', a, c)
    ensures Holds('>', a, b) <==> Holds('<', b, a)
    ensures Holds('e', a, b) <==> !Holds('<', a, b) && !Holds('>', a, b)
    ensures !(Holds('<', a, b) && Holds('>', a, b))
    ensures Holds('N', a, b) <==> !Holds('e', a, b)
    ensures Holds('L', a, b) <==> !Holds('>', a, b)
    ensures Holds('G', a, b) <==> !Holds('<', a, b)
  {
    hide Eval, Holds;
    Compared(a, b);
    Compared(b, c);
    Compared(a, c);
    Compared(b, a);
  }

  lemma Compared(a: Ast, b: Ast)
    requires Eval(a).Some? && Eval(b).Some?
    ensures var l, r := Eval(a).value, Eval(b).value;
      && (Holds('<', a, b) <==> l < r) && (Holds('>', a, b) <==> l > r) && (Holds('e', a, b) <==> l == r)
      && (Holds('L', a, b) <==> l <= r) && (Holds('G', a, b) <==> l >= r) && (Holds('N', a, b) <==> l != r)
  {
    hide Eval;
    BranchResult(a, b);
  }

  lemma BranchResult(a: Ast, b: Ast)
    requires Eval(a).Some? && Eval(b).Some?
    ensures forall op :: Result(op, a, b) == Apply(op, Eval(a).value, Eval(b).value)
  {
    hide Apply;
  }

  /** An operation of logic that does not hold gives 0. */
  lemma LogicIsBoolean(op: char, a: Ast, b: Ast)
    requires Eval(a).Some? && Eval(b).Some? && op in "<e>NLGoa"
    ensures !Holds(op, a, b) ==> Result(op, a, b) == Some(0)
  {
    hide Eval;
    BranchResult(a, b);
  }

  /** 'a' and 'o' join the conditions that their operands are not zero, '!' negates one, and
      the conditional evaluates the arm it takes and no other. */
  lemma LogicAndConditional(a: Ast, b: Ast, c: Ast)
    requires Eval(a).Some?
    ensures Eval(b).Some? ==>
      && (Holds('a', a, b) <==> Eval(a) != Some(0) && Eval(b) != Some(0))
      && (Holds('o', a, b) <==> Eval(a) != Some(0) || Eval(b) != Some(0))
    ensures Eval(Single('!', a)) == if Eval(a) == Some(0) then Some(1) else Some(0)
    ensures Eval(Tri(a, b, c)) == if Eval(Single('!', a)) == Some(1) then Eval(c) else Eval(b)
    ensures forall op :: op !in "+-*/%ud|&^oaeNLG<>" ==> Eval(b).Some? ==> Result(op, a, b) == Eval(a)
  {
  }

  /** An operand without a value leaves the whole without one. */
  lemma NothingFromNothing(op: char, a: Ast, b: Ast, c: Ast)
    ensures Eval(a).None? || Eval(b).None? ==> Eval(Branch(op, a, b)).None?
    ensures Eval(a).None? ==> Eval(Single(op, a)).None? && Eval(Tri(a, b, c)).None?
  {
  }

  /** Numbers and values found are longs. */
  predicate LeavesFit(a: Ast) {
    match a
    case Branch(_, l, r) => LeavesFit(l) && LeavesFit(r)
    case Single(_, v) => LeavesFit(v)
    case Tri(c, l, r) => LeavesFit(c) && LeavesFit(l) && LeavesFit(r)
    case Number(n) => IsLong(n)
    case Ident(_, found) => found.Some? ==> IsLong(found.value)
  }

  /** Then so is whatever the tree evaluates to. */
  lemma {:induction false} ValuesFit(a: Ast)
    requires LeavesFit(a)
    ensures Eval(a).Some? ==> IsLong(Eval(a).value)
  {
    match a
    case Branch(op, l, r) =>
      ValuesFit(l);
      ValuesFit(r);
      if Eval(a).Some? { ApplyFits(op, l, r, Eval(l).value, Eval(r).value); }
    case Single(_, v) => ValuesFit(v);
    case Tri(c, l, r) => ValuesFit(c); ValuesFit(l); ValuesFit(r);
    case Number(_) =>
    case Ident(_, _) =>
  }

  lemma ApplyFits(op: char, a: Ast, b: Ast, l: int, r: int)
    requires Operands(a, b, l, r) && Apply(op, l, r).Some?
    ensures IsLong(Apply(op, l, r).value)
  {
    hide Long, Quotient, Pow2, Or, And;
    SumsAndProducts(a, b, l, r);
    Division(a, b, l, r);
    Shifts(a, b, l, r);
    BitwiseOperators(a, b, l, r, 0);
  }
}
