/** The generated cachable predicate (bldcachable.cpp) against the decoder of the tree. */
module Cachable {
  import opened Bits
  import opened BitFields
  import opened Allocator
  import opened SlotSearch
  import opened AddressMap
  import opened BusTree

  /** One emitted line: (i_addr[bits-1:0] & mask) == addr.  A leaf's `memory` stands for
      ismemory, or for issubbus without a bus of its own. */
  datatype Test = Test(mask: nat, addr: nat, bits: nat)

  predicate Holds(t: Test, a: nat) {
    And(a % Pow2(t.bits), t.mask) == t.addr
  }

  /** log2 rounded up so that the mask fits strictly below 2^bits. */
  function MaskBits(mask: nat): nat {
    if Pow2(NextLg(mask)) <= mask then NextLg(mask) + 1 else NextLg(mask)
  }

  /** The slice an emitted line compares has room for its mask, and not one bit more. */
  lemma MaskBitsLeast(mask: nat, n: nat)
    ensures mask < Pow2(n) <==> MaskBits(mask) <= n
  {
    var r := NextLg(mask);
    NextLgLeast(mask, n);
    if r < n { Pow2Mono(r, n); }
  }

  /** Assignment to a 32-bit unsigned variable. */
  function Low(x: nat): nat { x % TWO32 }

  /** submask and subaddr, which are 32 bits wide. */
  function SubMask(b: Bus, i: nat, mask8: nat): nat
    requires i < |b.slaves|
  {
    Low(Or(Shl(Map(b).mask[i], Unit(b)), mask8))
  }

  function SubAddr(b: Bus, i: nat, mask8: nat, addr8: nat): nat
    requires i < |b.slaves|
  {
    Low(And(Or(Map(b).base[i], addr8), SubMask(b, i, mask8)))
  }

  /** The lines print_cachable emits for bus b under the mask and address of its parents. */
  function Tests(b: Bus, mask8: nat, addr8: nat): seq<Test>
    decreases b, |b.slaves| + 1
  {
    TestsFrom(b, mask8, addr8, 0)
  }

  function TestsFrom(b: Bus, mask8: nat, addr8: nat, k: nat): seq<Test>
    requires k <= |b.slaves|
    decreases b, |b.slaves| - k
  {
    if k == |b.slaves| then []
    else SlaveTests(b.slaves[k], SubMask(b, k, mask8), SubAddr(b, k, mask8, addr8))
         + TestsFrom(b, mask8, addr8, k + 1)
  }

  function SlaveTests(s: Slave, mask: nat, addr: nat): seq<Test>
    decreases s, 0
  {
    match s
    case Bridge(_, child) => Tests(child, mask, addr)
    case Leaf(_, _, memory) => if memory then [Test(mask, addr, MaskBits(mask))] else []
  }

  method PrintCachable(b: Bus, mask8: nat, addr8: nat, lines: seq<Test>) returns (r: seq<Test>)
    ensures r == lines + Tests(b, mask8, addr8)
    decreases b
  {
    hide And, Or, Pow2, NextLg, Map, Shl, Low;
    r := lines;
    for k := 0 to |b.slaves|
      invariant r + TestsFrom(b, mask8, addr8, k) == lines + Tests(b, mask8, addr8)
    {
      var s := b.slaves[k];
      var submask := Low(Or(Shl(Map(b).mask[k], Unit(b)), mask8));
      var subaddr := Low(And(Or(Map(b).base[k], addr8), submask));
      var pbits := NextLg(submask);
      if Pow2(pbits) <= submask { pbits := pbits + 1; }
      assert submask == SubMask(b, k, mask8) && subaddr == SubAddr(b, k, mask8, addr8);
      assert pbits == MaskBits(submask);
      if s.Bridge? {
        r := PrintCachable(s.child, submask, subaddr, r);
      } else if s.memory {
        r := r + [Test(submask, subaddr, pbits)];
      }
    }
  }

  // ----- the same lines without truncation -----

  function FullMask(b: Bus, i: nat, mask8: nat): nat
    requires i < |b.slaves|
  {
    Or(Shl(Map(b).mask[i], Unit(b)), mask8)
  }

  function FullAddr(b: Bus, i: nat, mask8: nat, addr8: nat): nat
    requires i < |b.slaves|
  {
    And(Or(Map(b).base[i], addr8), FullMask(b, i, mask8))
  }

  function FullTests(b: Bus, mask8: nat, addr8: nat): seq<Test>
    decreases b, |b.slaves| + 1
  {
    FullFrom(b, mask8, addr8, 0)
  }

  function FullFrom(b: Bus, mask8: nat, addr8: nat, k: nat): seq<Test>
    requires k <= |b.slaves|
    decreases b, |b.slaves| - k
  {
    if k == |b.slaves| then []
    else FullSlave(b.slaves[k], FullMask(b, k, mask8), FullAddr(b, k, mask8, addr8))
         + FullFrom(b, mask8, addr8, k + 1)
  }

  function FullSlave(s: Slave, mask: nat, addr: nat): seq<Test>
    decreases s, 0
  {
    match s
    case Bridge(_, child) => FullTests(child, mask, addr)
    case Leaf(_, _, memory) => if memory then [Test(mask, addr, MaskBits(mask))] else []
  }

  function Cut(t: Test): Test {
    Test(Low(t.mask), Low(t.addr), MaskBits(Low(t.mask)))
  }

  function CutAll(ts: seq<Test>): (r: seq<Test>)
    ensures |r| == |ts| && forall i :: 0 <= i < |ts| ==> r[i] == Cut(ts[i])
  {
    seq(|ts|, i requires 0 <= i < |ts| => Cut(ts[i]))
  }

  lemma LowOf(x: nat)
    ensures Low(x) == x % Pow2(32) && Low(Low(x)) == Low(x)
    ensures x < Pow2(32) ==> Low(x) == x
  {
    Pow32();
  }

  /** Truncating at every level is truncating at the end. */
  lemma CutLevel(b: Bus, i: nat, mask8: nat, addr8: nat)
    requires i < |b.slaves|
    ensures SubMask(b, i, Low(mask8)) == Low(FullMask(b, i, mask8))
    ensures SubAddr(b, i, Low(mask8), Low(addr8)) == Low(FullAddr(b, i, mask8, addr8))
  {
    hide And, Or, Pow2, Map, Low, Shl;
    CutOr(Shl(Map(b).mask[i], Unit(b)), mask8);
    CutOr(Map(b).base[i], addr8);
    var o := Or(Map(b).base[i], addr8);
    CutAnd(o, FullMask(b, i, mask8));
    CutAnd(Or(Map(b).base[i], Low(addr8)), FullMask(b, i, mask8));
  }

  lemma CutOr(x: nat, y: nat)
    ensures Low(Or(x, Low(y))) == Low(Or(x, y))
  {
    hide Or, Pow2, Low;
    LowOr(x, y, 32);
    LowOr(x, Low(y), 32);
    LowOf(y); LowOf(Low(y)); LowOf(Or(x, y)); LowOf(Or(x, Low(y)));
  }

  lemma CutAnd(x: nat, y: nat)
    ensures Low(And(x, Low(y))) == Low(And(x, y)) == And(Low(x), Low(y))
  {
    hide And, Pow2, Low;
    LowAnd(x, y, 32);
    LowAnd(x, Low(y), 32);
    LowOf(x); LowOf(y); LowOf(Low(y)); LowOf(And(x, y)); LowOf(And(x, Low(y)));
  }

  lemma CutConcat(s: seq<Test>, t: seq<Test>)
    ensures CutAll(s + t) == CutAll(s) + CutAll(t)
  {
  }

  lemma {:induction false} CutTests(b: Bus, mask8: nat, addr8: nat, k: nat)
    requires k <= |b.slaves|
    ensures TestsFrom(b, Low(mask8), Low(addr8), k) == CutAll(FullFrom(b, mask8, addr8, k))
    decreases b, |b.slaves| - k
  {
    hide Map, Low, SubMask, SubAddr, FullMask, FullAddr, MaskBits;
    if k < |b.slaves| {
      var s, fm, fa := b.slaves[k], FullMask(b, k, mask8), FullAddr(b, k, mask8, addr8);
      CutLevel(b, k, mask8, addr8);
      CutTests(b, mask8, addr8, k + 1);
      CutConcat(FullSlave(s, fm, fa), FullFrom(b, mask8, addr8, k + 1));
      if s.Bridge? {
        CutTests(s.child, fm, fa, 0);
        assert SlaveTests(s, Low(fm), Low(fa)) == CutAll(FullSlave(s, fm, fa));
      } else {
        assert SlaveTests(s, Low(fm), Low(fa)) == CutAll(FullSlave(s, fm, fa));
      }
      assert TestsFrom(b, Low(mask8), Low(addr8), k)
          == SlaveTests(s, Low(fm), Low(fa)) + TestsFrom(b, Low(mask8), Low(addr8), k + 1);
    }
  }

  ghost predicate AnyHolds(ts: seq<Test>, a: nat) {
    exists t :: t in ts && Holds(t, a)
  }

  ghost predicate AnyMemory(hs: seq<Hit>) {
    exists h :: h in hs && h.leaf.Leaf? && h.leaf.memory
  }

  lemma AnyHoldsConcat(s: seq<Test>, t: seq<Test>, a: nat)
    ensures AnyHolds(s + t, a) <==> AnyHolds(s, a) || AnyHolds(t, a)
  {
  }

  lemma AnyMemoryConcat(s: seq<Hit>, t: seq<Hit>)
    ensures AnyMemory(s + t) <==> AnyMemory(s) || AnyMemory(t)
  {
  }

  /** What the parents of a bus of width w have fixed: bits above w only. */
  ghost predicate ParentBits(mask8: nat, addr8: nat, w: nat) {
    mask8 % Pow2(w) == 0 && And(addr8, mask8) == addr8
  }

  /** Where a slave's octet mask lies: below the bus width and above its own window. */
  lemma MaskField(b: Bus, i: nat)
    requires WellFormed(b) && i < |b.slaves|
    ensures var m := Shl(Map(b).mask[i], Unit(b));
      && m < Pow2(OctetWidth(b))
      && m % Pow2(SlaveOctets(b.slaves[i], b.lgdw)) == 0
      && Map(b).base[i] < Pow2(OctetWidth(b))
      && SlaveOctets(b.slaves[i], b.lgdw) <= OctetWidth(b)
  {
    hide Pow2, SlaveOctets, LayoutOf, WidthsOf, Shl;
    WindowOctets(b, i);
    LayoutMaskField(WidthsOf(b.slaves, b.lgdw, b.word), Unit(b), b.nullsz, b.minWidth, i);
  }

  lemma LayoutMaskField(ws: seq<nat>, d: nat, nullsz: nat, busMin: nat, i: nat)
    requires d <= 14 && i < |ws| && Decodable(ws, d, nullsz)
    ensures var l := LayoutOf(ws, d, nullsz, busMin);
      && Shl(l.mask[i], d) < Pow2(l.width)
      && Shl(l.mask[i], d) % Pow2(ws[i] + d) == 0
      && l.base[i] < Pow2(l.width) && ws[i] + d <= l.width
  {
    hide Pow2, ChosenSlot, PlacedLayout, Shr;
    if |ws| == 1 && nullsz == 0 {
      ModSmall(0, Pow2(ws[i] + d));
    } else {
      MaskFieldOf(ws, d, ChosenSlot(ws, d, Shr(nullsz, d), busMin), nullsz, i);
    }
  }

  lemma MaskFieldOf(ws: seq<nat>, d: nat, m: nat, s0: nat, i: nat)
    requires i < |ws| && ws[i] + d >= 1
    ensures Shl(Mask(ws, d, m, s0, i), d) < Pow2(Width(ws, d, m, s0))
    ensures Shl(Mask(ws, d, m, s0, i), d) % Pow2(ws[i] + d) == 0
    ensures Base(ws, d, m, s0, i) < Pow2(Width(ws, d, m, s0))
    ensures ws[i] + d <= Width(ws, d, m, s0)
  {
    hide Pow2, AlignUp, End;
    var p, w := Slot(ws[i], d, m), Width(ws, d, m, s0);
    WindowFits(ws, d, m, s0, i);
    OctetMask(d, p, w);
    Pow2Divides(ws[i] + d, p);
    Pow2Divides(ws[i] + d, w);
    Pow2Mono(p, w);
    SubMultiple(Pow2(w), Pow2(p), Pow2(ws[i] + d));
  }

  lemma OctetMask(d: nat, p: nat, w: nat)
    requires d <= p <= w
    ensures Pow2(p - d) <= Pow2(w - d)
    ensures Pow2(d) * (Pow2(w - d) - Pow2(p - d)) == Pow2(w) - Pow2(p)
  {
    hide Pow2;
    Pow2Mono(p - d, w - d);
    Pow2Add(d, p - d);
    Pow2Add(d, w - d);
    Distribute(Pow2(d), Pow2(w - d) - Pow2(p - d), Pow2(p - d));
  }

  /** Matching a slave's line under its parents' bits is matching the parents' bits and,
      on the address truncated to this bus, the slave's own decoder. */
  lemma OneLevel(mask8: nat, addr8: nat, w: nat, base: nat, mask: nat, d: nat, a: nat)
    requires ParentBits(mask8, addr8, w) && base < Pow2(w) && Shl(mask, d) < Pow2(w)
    ensures var sm := Or(Shl(mask, d), mask8);
      (And(a, sm) == And(Or(base, addr8), sm))
      <==> (And(a, mask8) == addr8 && MaskMatch(a % Pow2(w), base, mask, d))
  {
    hide And, Or, Pow2, Shr;
    var m := Shl(mask, d);
    AgreeUnderOr(a, Or(base, addr8), m, mask8);
    AndOverOr(base, addr8, m);
    AndOverOr(base, addr8, mask8);
    AndOfMultiple(addr8, mask8, w);
    FieldsMiss(m, addr8, w);
    DisjointFields(base, mask8, w);
    OrWithZero(And(base, m), 0);
    OrWithZero(0, addr8);
    AndLowPart(a, m, w);
    AndShifted(a % Pow2(w), mask, d);
    AndShifted(base, mask, d);
    CancelFactor(Pow2(d), And(Shr(a % Pow2(w), d), mask), And(Shr(base, d), mask));
  }

  lemma FieldsMiss(m: nat, addr: nat, w: nat)
    requires m < Pow2(w) && addr % Pow2(w) == 0
    ensures And(addr, m) == 0
  {
    AndLowPart(addr, m, w);
  }

  /** The slice of an emitted line loses nothing: the mask fits in it. */
  lemma SliceIsEnough(mask: nat, addr: nat, a: nat)
    ensures Holds(Test(mask, addr, MaskBits(mask)), a) <==> And(a, mask) == addr
  {
    hide And, Pow2;
    var r := NextLg(mask);
    if Pow2(r) <= mask { Pow2Mono(r, r + 1); }
    AndLowPart(a, mask, MaskBits(mask));
  }

  lemma ChildBits(b: Bus, i: nat, mask8: nat, addr8: nat)
    requires WellFormed(b) && i < |b.slaves| && ParentBits(mask8, addr8, OctetWidth(b))
    ensures ParentBits(FullMask(b, i, mask8), FullAddr(b, i, mask8, addr8), SlaveOctets(b.slaves[i], b.lgdw))
  {
    hide And, Or, Pow2, Map, SlaveOctets, OctetWidth;
    var w := SlaveOctets(b.slaves[i], b.lgdw);
    MaskField(b, i);
    MultipleOfPow2(mask8, w, OctetWidth(b));
    OrOfMultiples(Shl(Map(b).mask[i], Unit(b)), mask8, w);
    AndTwice(Or(Map(b).base[i], addr8), FullMask(b, i, mask8));
  }

  lemma LevelStep(b: Bus, i: nat, mask8: nat, addr8: nat, a: nat)
    requires WellFormed(b) && i < |b.slaves| && ParentBits(mask8, addr8, OctetWidth(b))
    ensures And(a, FullMask(b, i, mask8)) == FullAddr(b, i, mask8, addr8)
      <==> And(a, mask8) == addr8 && Selects(Map(b), Unit(b), i, a % Pow2(OctetWidth(b)))
  {
    hide And, Or, Pow2, Map, OctetWidth, MaskMatch;
    MaskField(b, i);
    OneLevel(mask8, addr8, OctetWidth(b), Map(b).base[i], Map(b).mask[i], Unit(b), a);
  }

  /** Truncating to the bus and then to a slave is truncating to the slave. */
  lemma TruncateTwice(a: nat, v: nat, w: nat)
    requires v <= w
    ensures (a % Pow2(w)) % Pow2(v) == a % Pow2(v)
  {
    hide Pow2;
    Pow2Add(v, w - v);
    DivDiv(a, Pow2(v), Pow2(w - v));
    var q := (a / Pow2(v)) % Pow2(w - v);
    Commute(Pow2(v), q);
    AddMultiple(a % Pow2(v), q, Pow2(v));
    ModSmall(a % Pow2(v), Pow2(v));
  }

  /** Level by level: some emitted line of bus b holds of a full address exactly when the
      parents' bits match and decoding on b ends at a memory. */
  lemma {:induction false} TestsDecode(b: Bus, mask8: nat, addr8: nat, a: nat, k: nat)
    requires WellFormed(b) && ParentBits(mask8, addr8, OctetWidth(b)) && k <= |b.slaves|
    ensures AnyHolds(FullFrom(b, mask8, addr8, k), a)
      <==> And(a, mask8) == addr8 && AnyMemory(DecodeFrom(b, a % Pow2(OctetWidth(b)), k))
    decreases b, |b.slaves| - k
  {
    hide And, Or, Pow2, Map, OctetWidth, SlaveOctets, FullMask, FullAddr, MaskBits, Holds, Selects;
    if k < |b.slaves| {
      var s, low := b.slaves[k], a % Pow2(OctetWidth(b));
      var sm, sa := FullMask(b, k, mask8), FullAddr(b, k, mask8, addr8);
      assert s in b.slaves;
      TestsDecode(b, mask8, addr8, a, k + 1);
      LevelStep(b, k, mask8, addr8, a);
      SlaveTestsDecode(b, k, sm, sa, mask8, addr8, a);
      AnyHoldsConcat(FullSlave(s, sm, sa), FullFrom(b, mask8, addr8, k + 1), a);
      AnyMemoryConcat(if Selects(Map(b), Unit(b), k, low) then DecodeSlave(s, b.lgdw, low) else [],
                      DecodeFrom(b, low, k + 1));
    }
  }

  lemma {:induction false} SlaveTestsDecode(b: Bus, k: nat, sm: nat, sa: nat, mask8: nat, addr8: nat, a: nat)
    requires WellFormed(b) && ParentBits(mask8, addr8, OctetWidth(b)) && k < |b.slaves|
    requires sm == FullMask(b, k, mask8) && sa == FullAddr(b, k, mask8, addr8)
    ensures AnyHolds(FullSlave(b.slaves[k], sm, sa), a)
      <==> And(a, sm) == sa && AnyMemory(DecodeSlave(b.slaves[k], b.lgdw, a % Pow2(OctetWidth(b))))
    decreases b, 0
  {
    hide And, Or, Pow2, Map, OctetWidth, FullMask, FullAddr, MaskBits, Holds, Selects;
    var s, w := b.slaves[k], OctetWidth(b);
    assert s in b.slaves;
    if s.Bridge? {
      ChildBits(b, k, mask8, addr8);
      TestsDecode(s.child, sm, sa, a, 0);
      MaskField(b, k);
      TruncateTwice(a, OctetWidth(s.child), w);
    } else {
      SliceIsEnough(sm, sa, a);
      var h := Hit(s, (a % Pow2(w)) % Pow2(SlaveOctets(s, b.lgdw)));
      assert DecodeSlave(s, b.lgdw, a % Pow2(w)) == [h];
      if s.memory {
        assert FullSlave(s, sm, sa) == [Test(sm, sa, MaskBits(sm))];
      }
    }
  }

  /** Untruncated, the lines are right on a bus of any width. */
  lemma FullIffMemory(b: Bus, a: nat)
    requires WellFormed(b) && a < Pow2(OctetWidth(b))
    ensures AnyHolds(FullTests(b, 0, 0), a) <==> AnyMemory(Decode(b, a))
  {
    hide Pow2, OctetWidth, FullFrom, DecodeFrom;
    ModSmall(a, Pow2(OctetWidth(b)));
    NoParents(OctetWidth(b));
    TestsDecode(b, 0, 0, a, 0);
  }

  lemma NoParents(w: nat)
    ensures ParentBits(0, 0, w)
  {
  }

  // ----- what the truncated lines accept -----

  /** A full line's address lies within its mask, and its mask within w bits. */
  ghost predicate Within(t: Test, w: nat) {
    t.mask < Pow2(w) && And(t.addr, t.mask) == t.addr && t.bits == MaskBits(t.mask)
  }

  ghost predicate AllWithin(ts: seq<Test>, w: nat) {
    forall t :: t in ts ==> Within(t, w)
  }

  lemma {:induction false} FullWithin(b: Bus, mask8: nat, addr8: nat, k: nat, w: nat)
    requires WellFormed(b) && k <= |b.slaves| && mask8 < Pow2(w) && OctetWidth(b) <= w
    ensures AllWithin(FullFrom(b, mask8, addr8, k), w)
    decreases b, |b.slaves| - k
  {
    hide And, Or, Pow2, Map, OctetWidth, SlaveOctets, MaskBits, Shl, Within;
    if k < |b.slaves| {
      var s, fm, fa := b.slaves[k], FullMask(b, k, mask8), FullAddr(b, k, mask8, addr8);
      assert s in b.slaves;
      FullWithin(b, mask8, addr8, k + 1, w);
      MaskField(b, k);
      Pow2Mono(OctetWidth(b), w);
      OrBelow(Shl(Map(b).mask[k], Unit(b)), mask8, w);
      AndTwice(Or(Map(b).base[k], addr8), fm);
      if s.Bridge? {
        ChildWidth(b, k);
        FullWithin(s.child, fm, fa, 0, w);
      } else {
        MakeWithin(fm, fa, w);
      }
      assert AllWithin(FullSlave(s, fm, fa), w);
    }
  }

  lemma MakeWithin(mask: nat, addr: nat, w: nat)
    requires mask < Pow2(w) && And(addr, mask) == addr
    ensures Within(Test(mask, addr, MaskBits(mask)), w)
  {
  }

  lemma ChildWidth(b: Bus, k: nat)
    requires WellFormed(b) && k < |b.slaves| && b.slaves[k].Bridge?
    ensures OctetWidth(b.slaves[k].child) <= OctetWidth(b)
  {
    hide Map, OctetWidth, Shl, Pow2;
    MaskField(b, k);
  }

  /** The same address in the low 32 bits. */
  predicate SameLow(a: nat, x: nat) {
    Low(a) == Low(x)
  }

  lemma AndUnderLow(a: nat, m: nat)
    ensures And(a, Low(m)) == And(Low(a), Low(m))
  {
    hide And, Pow2;
    CutAnd(a, m);
    LowOf(And(a, Low(m)));
    Pow32();
  }

  /** What a truncated line tests. */
  lemma CutHolds(t: Test, a: nat)
    ensures Holds(Cut(t), a) <==> And(Low(a), Low(t.mask)) == Low(t.addr)
  {
    hide And, Low, Holds;
    SliceIsEnough(Low(t.mask), Low(t.addr), a);
    AndUnderLow(a, t.mask);
  }

  /** An address the full line accepts is accepted truncated, whatever its high bits. */
  lemma CutAccepts(t: Test, w: nat, a: nat, x: nat)
    requires Within(t, w) && SameLow(a, x) && Holds(t, x)
    ensures Holds(Cut(t), a)
  {
    hide And, Low, Pow2, MaskBits, Holds;
    CutHolds(t, a);
    SliceIsEnough(t.mask, t.addr, x);
    CutAnd(x, t.mask);
  }

  /** An address the truncated line accepts, with the right high bits, the full line accepts. */
  lemma CutAcceptsOnly(t: Test, w: nat, a: nat) returns (x: nat)
    requires Within(t, w) && a < Pow2(w) && Holds(Cut(t), a)
    ensures x < Pow2(w) && SameLow(a, x) && Holds(t, x)
  {
    hide And, Pow2, MaskBits, Holds, Shr;
    x := Shl(Shr(t.addr, 32), 32) + Low(a);
    LowOf(a);
    Recombine(Shr(t.addr, 32), Low(a));
    LowOf(x);
    RecombinedBelow(t.addr, a, w);
    CutHolds(t, a);
    CutAnd(x, t.mask);
    AndHighPart(x, t.mask, 32);
    AndHighPart(t.addr, t.mask, 32);
    SameParts(And(x, t.mask), t.addr);
    SliceIsEnough(t.mask, t.addr, x);
  }

  lemma Recombine(high: nat, low: nat)
    requires low < Pow2(32)
    ensures Shr(Shl(high, 32) + low, 32) == high && (Shl(high, 32) + low) % Pow2(32) == low
  {
    hide Pow2;
    Commute(Pow2(32), high);
    DivUnique(Shl(high, 32) + low, Pow2(32), high, low);
  }

  lemma SameParts(x: nat, y: nat)
    requires Shr(x, 32) == Shr(y, 32) && Low(x) == Low(y)
    ensures x == y
  {
    hide Pow2;
    LowOf(x);
    LowOf(y);
  }

  lemma RecombinedBelow(addr: nat, a: nat, w: nat)
    requires addr < Pow2(w) && a < Pow2(w)
    ensures Shl(Shr(addr, 32), 32) + Low(a) < Pow2(w)
  {
    hide Pow2, Shr;
    LowOf(a);
    if w <= 32 {
      Pow2Mono(w, 32);
      ShrSmall(addr);
    } else {
      ShrBelow(addr, 32, w);
      Pow2Add(32, w - 32);
      MultipleGap(Shr(addr, 32), Pow2(w - 32), Pow2(32));
      Commute(Pow2(32), Shr(addr, 32));
      Commute(Pow2(32), Pow2(w - 32));
    }
  }

  lemma ShrSmall(x: nat)
    requires x < Pow2(32)
    ensures Shr(x, 32) == 0
  {
    hide Pow2;
    ModSmall(x, Pow2(32));
  }

  /** Some address of the bus with the same low 32 bits decodes to a memory. */
  ghost predicate MemoryModulo(b: Bus, a: nat) {
    exists x: nat :: x < Pow2(OctetWidth(b)) && SameLow(a, x) && AnyMemory(Decode(b, x))
  }

  /** On a bus of any width, the generated predicate is true of an address exactly when some
      address that shares its low 32 bits decodes, level by level, to a memory. */
  lemma CachableModulo(b: Bus, a: nat)
    requires WellFormed(b) && a < Pow2(OctetWidth(b))
    ensures AnyHolds(Tests(b, 0, 0), a) <==> MemoryModulo(b, a)
  {
    hide Pow2, OctetWidth, TestsFrom, FullFrom, DecodeFrom, WellFormed, Within, Holds, Low, CutAll, Decode;
    var w, full := OctetWidth(b), FullTests(b, 0, 0);
    FullLines(b);
    if AnyHolds(Tests(b, 0, 0), a) {
      var u :| u in Tests(b, 0, 0) && Holds(u, a);
      var t := CutFrom(full, u);
      var x := CutAcceptsOnly(t, w, a);
      assert AnyHolds(full, x);
      FullIffMemory(b, x);
    }
    if MemoryModulo(b, a) {
      var x: nat :| x < Pow2(w) && SameLow(a, x) && AnyMemory(Decode(b, x));
      FullIffMemory(b, x);
      var t :| t in full && Holds(t, x);
      CutAccepts(t, w, a, x);
      CutInto(full, t);
    }
  }

  lemma FullLines(b: Bus)
    requires WellFormed(b)
    ensures Tests(b, 0, 0) == CutAll(FullTests(b, 0, 0))
    ensures AllWithin(FullTests(b, 0, 0), OctetWidth(b))
  {
    hide OctetWidth, TestsFrom, FullFrom, WellFormed, Within, CutAll;
    CutTests(b, 0, 0, 0);
    FullWithin(b, 0, 0, 0, OctetWidth(b));
  }

  lemma CutFrom(ts: seq<Test>, u: Test) returns (t: Test)
    requires u in CutAll(ts)
    ensures t in ts && u == Cut(t)
  {
    var i :| 0 <= i < |CutAll(ts)| && CutAll(ts)[i] == u;
    t := ts[i];
  }

  lemma CutInto(ts: seq<Test>, t: Test)
    requires t in ts
    ensures Cut(t) in CutAll(ts)
  {
    var i :| 0 <= i < |ts| && ts[i] == t;
    assert CutAll(ts)[i] == Cut(t);
  }

  /** On a bus of at most 32 octet address bits, the generated predicate is true of an address
      exactly when decoding it through the tree, level by level, ends at a memory. */
  lemma CachableIffMemory(b: Bus, a: nat)
    requires WellFormed(b) && OctetWidth(b) <= 32 && a < Pow2(OctetWidth(b))
    ensures AnyHolds(Tests(b, 0, 0), a) <==> AnyMemory(Decode(b, a))
  {
    hide Pow2, OctetWidth, Tests, Decode, Low, WellFormed;
    CachableModulo(b, a);
    Pow2Mono(OctetWidth(b), 32);
    forall x: nat | x < Pow2(OctetWidth(b)) && SameLow(a, x) ensures x == a {
      LowOf(x);
      LowOf(a);
    }
  }

  /** On a wider bus it is right on every address exactly when no memory shares its low 32
      address bits with something that is not a memory. */
  lemma CachableIff(b: Bus)
    requires WellFormed(b)
    ensures (forall a :: 0 <= a < Pow2(OctetWidth(b)) ==>
              (AnyHolds(Tests(b, 0, 0), a) <==> AnyMemory(Decode(b, a))))
       <==> (forall a, x :: 0 <= a < Pow2(OctetWidth(b)) && 0 <= x < Pow2(OctetWidth(b)) && SameLow(a, x) ==>
              (AnyMemory(Decode(b, a)) <==> AnyMemory(Decode(b, x))))
  {
    hide Pow2, OctetWidth, Tests, Decode, Low, WellFormed, AnyHolds, AnyMemory;
    forall a | 0 <= a < Pow2(OctetWidth(b)) ensures AnyHolds(Tests(b, 0, 0), a) <==> MemoryModulo(b, a) {
      CachableModulo(b, a);
    }
    forall a, x | 0 <= a < Pow2(OctetWidth(b)) && 0 <= x < Pow2(OctetWidth(b)) && SameLow(a, x)
      ensures MemoryModulo(b, a) <==> MemoryModulo(b, x)
    {
    }
    forall a | 0 <= a < Pow2(OctetWidth(b)) && AnyMemory(Decode(b, a)) ensures MemoryModulo(b, a) {
      assert SameLow(a, a);
    }
  }

  /** A byte-addressed bus of 33 bits: a memory of 2^31 octets and two other slaves of that
      size, the last of them at 2^32. */
  function WideBus(): Bus {
    Bus(0, false, 0, 0, [Leaf(0, TWO31, true), Leaf(1, TWO31, false), Leaf(2, TWO31, false)])
  }

  lemma {:induction false} SearchStays(ws: seq<nat>, d: nat, n: nat, m: nat, b: Best)
    requires d <= 14 && b.slot <= 31
    ensures SearchFrom(ws, d, n, m, b).slot <= 31
    decreases 32 - m
  {
    hide Estimate32;
    if m < 32 - d {
      var total := Estimate32(ws, d, m, n);
      if total >= m { SearchStays(ws, d, n, m + 1, Consider(b, m, total)); }
    }
  }

  lemma WidePlaced(ws: seq<nat>, m: nat)
    requires ws == [31, 31, 31] && m <= 31
    ensures Base(ws, 0, m, 0, 0) == 0 && Base(ws, 0, m, 0, 2) == TWO32 && Width(ws, 0, m, 0) == 33
  {
    hide Pow2, NextLg, AlignUp;
    Pow32();
    Pow2Succ(33); Pow2Succ(32);
    EqualSlots(ws, 0, m, 31, 0);
    EqualSlots(ws, 0, m, 31, 2);
    EqualSlots(ws, 0, m, 31, 3);
    MulMod(0, Pow2(31)); MulMod(2, Pow2(31));
    AlignUpFixed(0, 31);
    AlignUpFixed(TWO32, 31);
    NextLgIs(3 * Pow2(31), 33);
  }

  lemma WideLayout()
    ensures var l := Map(WideBus());
      l.width == OctetWidth(WideBus()) == 33 && l.base == [0, l.base[1], TWO32]
    ensures WidthsOf(WideBus().slaves, 0, false) == [31, 31, 31] && WellFormed(WideBus())
    ensures forall i :: 0 <= i < 3 ==> SlaveOctets(WideBus().slaves[i], 0) == 31
  {
    hide Pow2, NextLg, ChosenSlot, SearchFrom, Base, Mask, Width;
    var b, ws: seq<nat> := WideBus(), [31, 31, 31];
    Pow32();
    NextLgPow2(31);
    assert WidthsOf(b.slaves, 0, false) == ws;
    WideSlot31(ws, Shr(0, 0));
    WidePlaced(ws, ChosenSlot(ws, 0, Shr(0, 0), 0));
  }

  lemma WideSlot31(ws: seq<nat>, n: nat)
    requires ws == [31, 31, 31]
    ensures ChosenSlot(ws, 0, n, 0) <= 31
  {
    hide Estimate32, SearchFrom;
    SearchStays(ws, 0, n, 1, Initial(ws, 0, n, 0));
  }

  /** Its address 2^32 is reported cachable, as address 0 is, though no memory answers it. */
  lemma WideBusMisleads()
    ensures WellFormed(WideBus()) && OctetWidth(WideBus()) == 33
    ensures AnyHolds(Tests(WideBus(), 0, 0), TWO32) && !AnyMemory(Decode(WideBus(), TWO32))
  {
    hide Pow2, Tests, Decode, Map, OctetWidth;
    var b := WideBus();
    WideLayout();
    Pow32();
    Pow2Succ(33);
    DecodeLevel(b, 0, 0);
    DecodeLevel(b, 2, 0);
    LowOf(0);
    assert SameLow(TWO32, 0);
    var h := Hit(b.slaves[0], 0);
    assert h in Decode(b, 0);
    CachableModulo(b, TWO32);
  }

  // ----- when the emitted slices are legal -----

  /** A memory that no address bit selects: nothing but lone slaves on the way to it. */
  ghost predicate LoneMemory(b: Bus)
    decreases b
  {
    |b.slaves| == 1 && b.nullsz == 0 &&
    match b.slaves[0]
    case Leaf(_, _, memory) => memory
    case Bridge(_, child) => LoneMemory(child)
  }

  /** A memory that no address bit below 32 selects, among the slaves from k on. */
  ghost predicate Blind(b: Bus, k: nat)
    requires k <= |b.slaves|
    decreases b, |b.slaves| - k
  {
    k < |b.slaves| && ((Low(Shl(Map(b).mask[k], Unit(b))) == 0 && BlindSlave(b.slaves[k])) || Blind(b, k + 1))
  }

  ghost predicate BlindSlave(s: Slave)
    decreases s, 0
  {
    match s
    case Leaf(_, _, memory) => memory
    case Bridge(_, child) => Blind(child, 0)
  }

  /** Some emitted line has the slice i_addr[-1:0]. */
  ghost predicate EmptySlice(ts: seq<Test>) {
    exists t :: t in ts && t.bits == 0
  }

  lemma EmptySliceConcat(s: seq<Test>, t: seq<Test>)
    ensures EmptySlice(s + t) <==> EmptySlice(s) || EmptySlice(t)
  {
  }

  lemma OneSlice(t: Test)
    ensures EmptySlice([t]) <==> t.bits == 0
    ensures !EmptySlice([])
  {
    assert [t][0] in [t];
  }

  lemma SliceBits(mask: nat)
    ensures MaskBits(mask) == 0 <==> mask == 0
  {
    if MaskBits(mask) == 0 { assert NextLg(mask) == 0 && Pow2(0) == 1; }
  }

  /** A truncated mask is zero exactly when its parts are. */
  lemma LowOrIsZero(x: nat, y: nat)
    ensures Low(Or(x, y)) == 0 <==> Low(x) == 0 && Low(y) == 0
  {
    hide Or, Pow2, Low;
    LowOr(x, y, 32);
    LowOf(x); LowOf(y); LowOf(Or(x, y));
    OrIsZero(Low(x), Low(y));
  }

  /** Below a selecting mask every slice is legal; below none, only a blind memory's is not. */
  lemma {:induction false} SlicesBelow(b: Bus, mask8: nat, addr8: nat, k: nat)
    requires k <= |b.slaves|
    ensures EmptySlice(TestsFrom(b, Low(mask8), addr8, k)) <==> Low(mask8) == 0 && Blind(b, k)
    decreases b, |b.slaves| - k
  {
    hide Map, MaskBits, Or, And, Shl, Low, EmptySlice;
    if k < |b.slaves| {
      var s, sm, sa := b.slaves[k], SubMask(b, k, Low(mask8)), SubAddr(b, k, Low(mask8), addr8);
      SlicesBelow(b, mask8, addr8, k + 1);
      EmptySliceConcat(SlaveTests(s, sm, sa), TestsFrom(b, Low(mask8), addr8, k + 1));
      LowOrIsZero(Shl(Map(b).mask[k], Unit(b)), Low(mask8));
      LowOf(mask8);
      LowOf(Or(Shl(Map(b).mask[k], Unit(b)), Low(mask8)));
      assert sm == 0 <==> Low(mask8) == 0 && Low(Shl(Map(b).mask[k], Unit(b))) == 0;
      if s.Bridge? {
        SlicesBelow(s.child, sm, sa, 0);
        assert EmptySlice(SlaveTests(s, sm, sa)) <==> sm == 0 && BlindSlave(s);
      } else {
        SliceBits(sm);
        OneSlice(Test(sm, sa, MaskBits(sm)));
        assert EmptySlice(SlaveTests(s, sm, sa)) <==> sm == 0 && BlindSlave(s);
      }
    } else {
      OneSlice(Test(0, 0, 0));
    }
  }

  /** The generated function contains an empty slice exactly when no address bit below 32
      selects some memory. */
  lemma SlicesLegalIff(b: Bus)
    ensures EmptySlice(Tests(b, 0, 0)) <==> Blind(b, 0)
  {
    hide TestsFrom, Blind, EmptySlice, Low;
    LowOf(0);
    SlicesBelow(b, 0, 0, 0);
  }

  /** Octet masks are 0 exactly on a bus with a lone slave and no NULL region. */
  lemma MaskIsZero(b: Bus, k: nat)
    requires WellFormed(b) && k < |b.slaves|
    ensures Shl(Map(b).mask[k], Unit(b)) == 0 <==> |b.slaves| == 1 && b.nullsz == 0
  {
    hide PlacedLayout, ChosenSlot, And, Or;
    var ws, d := WidthsOf(b.slaves, b.lgdw, b.word), Unit(b);
    if |b.slaves| == 1 && b.nullsz == 0 {
      assert Map(b).mask[k] == 0;
    } else {
      NullRegionAndMasks(ws, d, b.nullsz, b.minWidth, k);
      DoubleProduct(Pow2(d), Map(b).mask[k]);
    }
  }

  /** On a bus of at most 32 octet address bits, that is a memory alone on its bus below
      bridges alone on theirs. */
  lemma {:induction false} BlindIsLone(b: Bus, k: nat)
    requires WellFormed(b) && OctetWidth(b) <= 32 && k <= |b.slaves|
    ensures Blind(b, k) <==> k == 0 && LoneMemory(b)
    decreases b, |b.slaves| - k
  {
    hide Map, OctetWidth, Shl, Low, Pow2;
    if k < |b.slaves| {
      var s, m := b.slaves[k], Shl(Map(b).mask[k], Unit(b));
      assert s in b.slaves;
      BlindIsLone(b, k + 1);
      MaskField(b, k);
      MaskIsZero(b, k);
      Pow2Mono(OctetWidth(b), 32);
      LowOf(m);
      if s.Bridge? {
        ChildWidth(b, k);
        BlindIsLone(s.child, 0);
      }
    }
  }
}
