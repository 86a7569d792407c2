/** How many address bits an assignment costs, against every other slot width and against
    every conceivable disjoint placement; and the inputs for which the search goes wrong. */
module AddressWidth {
  import opened Bits
  import opened Allocator
  import opened SlotSearch
  import opened AddressMap

  /** Every slave has at least one address bit. */
  ghost predicate AllWide(ws: seq<nat>) {
    forall i :: 0 <= i < |ws| ==> ws[i] >= 1
  }

  /** In general the estimated width never exceeds the width the placement then takes. */
  lemma EstimateIsLowerBound(ws: seq<nat>, d: nat, m: nat, nullsz: nat)
    requires |ws| >= 1 && AllPositive(ws, d)
    ensures Estimate(ws, d, m, Shr(nullsz, d)) <= Width(ws, d, m, nullsz)
  {
    hide Shr, Pow2, NextLg, AlignUp;
    var n := Shr(nullsz, d);
    var e, s := End(ws, 0, WordSlot(m, d), n, |ws|), End(ws, d, m, nullsz, |ws|);
    ShrTimes(nullsz, d);
    EstimateBelow(ws, d, m, n, nullsz, |ws|);
    NextLgMono(Pow2(d) * e, s);
    if e > 0 { NextLgScale(e, d); } else { WindowFits(ws, d, m, nullsz, 0); }
  }

  lemma ShrTimes(x: nat, d: nat)
    ensures Pow2(d) * Shr(x, d) <= x
    ensures x % Pow2(d) == 0 ==> Pow2(d) * Shr(x, d) == x
  {
    DropRemainder(x, Pow2(d));
  }

  /** Predicted width is real width when every slave has an address bit and the NULL
      region is a whole number of words. */
  lemma EstimateIsExact(ws: seq<nat>, d: nat, m: nat, nullsz: nat)
    requires |ws| >= 1 && AllWide(ws) && nullsz % Pow2(d) == 0
    ensures Estimate(ws, d, m, Shr(nullsz, d)) == Width(ws, d, m, nullsz)
  {
    var n := Shr(nullsz, d);
    ShrTimes(nullsz, d);
    EstimateExact(ws, d, m, n, nullsz, |ws|);
    WindowFits(ws, 0, WordSlot(m, d), n, 0);
    EndMono(ws, 0, WordSlot(m, d), n, 1, |ws|);
    NextLgScale(End(ws, 0, WordSlot(m, d), n, |ws|), d);
  }

  /** The assigned width is the least real width over all slots searched, and a wider
      slot (fewer decoded bits) would cost at least one more address bit. */
  lemma AssignedWidthIsLeast(ws: seq<nat>, d: nat, nullsz: nat, busMin: nat)
    requires d <= 14 && (|ws| >= 2 || (|ws| == 1 && nullsz > 0))
    requires AllWide(ws) && nullsz % Pow2(d) == 0 && SumsFit(ws, d, Shr(nullsz, d))
    ensures var m := ChosenSlot(ws, d, Shr(nullsz, d), busMin);
      var l := LayoutOf(ws, d, nullsz, busMin);
      && l.width == Width(ws, d, m, nullsz) == Width(ws, d, d + 1, nullsz)
      && (forall k :: d + 1 <= k < 32 - d ==> l.width <= Width(ws, d, k, nullsz))
      && (forall k :: m < k < 32 - d ==> l.width < Width(ws, d, k, nullsz))
  {
    var n := Shr(nullsz, d);
    var m := ChosenSlot(ws, d, n, busMin);
    assert ws[0] >= 1;
    SearchIsOptimal(ws, d, n, busMin);
    EstimateIsExact(ws, d, m, nullsz);
    EstimateIsExact(ws, d, d + 1, nullsz);
    forall k | d + 1 <= k < 32 - d
      ensures Estimate(ws, d, k, n) == Width(ws, d, k, nullsz)
    {
      EstimateIsExact(ws, d, k, nullsz);
    }
  }

  /** With no SLAVE.ORDER the list is sorted by width, and then no disjoint placement of
      the slaves above the NULL region, aligned or not, uses fewer address bits. */
  lemma SortedAssignmentIsOptimal(ws: seq<nat>, d: nat, nullsz: nat, busMin: nat, bs: seq<nat>, limit: nat)
    requires d <= 14 && (|ws| >= 2 || (|ws| == 1 && nullsz > 0))
    requires AllWide(ws) && nullsz % Pow2(d) == 0 && SumsFit(ws, d, Shr(nullsz, d))
    requires Ascending(ws) && DisjointPlacement(bs, Sizes(ws, d), nullsz, limit)
    ensures LayoutOf(ws, d, nullsz, busMin).width <= NextLg(limit)
  {
    AssignedWidthIsLeast(ws, d, nullsz, busMin);
    AscendingIsOptimal(ws, d, d + 1, nullsz, bs, limit);
  }

  /** SLAVE.ORDER can force any order; it costs at most one address bit. */
  lemma AnyOrderCostsOneBit(ws: seq<nat>, d: nat, nullsz: nat, busMin: nat, bs: seq<nat>, limit: nat)
    requires d <= 14 && (|ws| >= 2 || (|ws| == 1 && nullsz > 0))
    requires AllWide(ws) && nullsz % Pow2(d) == 0 && SumsFit(ws, d, Shr(nullsz, d))
    requires DisjointPlacement(bs, Sizes(ws, d), nullsz, limit)
    ensures LayoutOf(ws, d, nullsz, busMin).width <= NextLg(limit) + 1
  {
    AssignedWidthIsLeast(ws, d, nullsz, busMin);
    AnyOrderNearOptimal(ws, d, d + 1, nullsz, bs, limit);
  }

  // ----- inputs for which the properties above fail -----

  /** The extra bit of an ordered list is real: widths 1, 3, 1 in that order take 5 bits,
      though the same slaves fit disjointly below 16. */
  lemma OrderCanCostABit()
    ensures LayoutOf([1, 3, 1], 0, 0, 0).width == 5
    ensures DisjointPlacement([0, 8, 2], Sizes([1, 3, 1], 0), 0, 16) && NextLg(16) == 4
  {
    hide NextLg, Pow2, AlignUp, SumsFit, LeastTotal, Width, LayoutOf, DisjointPlacement, Sizes, Shr, ChosenSlot;
    var ws: seq<nat> := [1, 3, 1];
    ZeroWords();
    OrderedEnd(ws);
    FitAt5(ws);
    assert AllWide(ws);
    AssignedWidthIsLeast(ws, 0, 0, 0);
    ShrunkPlacement(ws);
  }

  lemma ZeroWords()
    ensures 0 % Pow2(0) == 0
  {
  }

  lemma ShrunkPlacement(ws: seq<nat>)
    requires ws == [1, 3, 1]
    ensures DisjointPlacement([0, 8, 2], Sizes(ws, 0), 0, 16) && NextLg(16) == 4
  {
  }

  lemma OrderedEnd(ws: seq<nat>)
    requires ws == [1, 3, 1]
    ensures Width(ws, 0, 1, 0) == LeastTotal(ws, 0, 0) == 5
    ensures Shr(0, 0) == 0
  {
    Small();
    AlignUpIs(0, 1, 0); AlignUpIs(2, 3, 8); AlignUpIs(16, 1, 16);
    assert End(ws, 0, 1, 0, 0) == 0;
    assert End(ws, 0, 1, 0, 1) == 2;
    assert End(ws, 0, 1, 0, 2) == 16;
    assert End(ws, 0, 1, 0, 3) == 18;
    NextLgIs(18, 5);
  }

  lemma FitAt5(ws: seq<nat>)
    requires ws == [1, 3, 1] && LeastTotal(ws, 0, 0) == 5
    ensures SumsFit(ws, 0, 0)
  {
    Small();
    AlignUpIs(0, 5, 0); AlignUpIs(32, 5, 32); AlignUpIs(64, 5, 64);
    assert End(ws, 0, 5, 0, 0) == 0;
    assert End(ws, 0, 5, 0, 1) == 32;
    assert End(ws, 0, 5, 0, 2) == 64;
    assert End(ws, 0, 5, 0, 3) == 96;
  }

  lemma Small()
    ensures Pow2(0) == 1 && Pow2(1) == 2 && Pow2(2) == 4 && Pow2(3) == 8 && Pow2(4) == 16
    ensures Pow2(5) == 32 && Pow2(6) == 64 && Pow2(7) == 128 && Pow2(8) == 256 && Pow2(9) == 512
  {
  }

  lemma AlignUpIs(s: nat, p: nat, r: nat)
    requires s <= r < s + Pow2(p) && r % Pow2(p) == 0
    ensures AlignUp(s, p) == r
  {
    AlignUpLeast(s, p, r);
    LeastMultiple(r, AlignUp(s, p), Pow2(p));
  }

  /** Slaves of a single word are invisible to the estimator but not to the placement.
      Seven of them beside one slave of 16 words on a 32-bit bus: the search picks slots of
      64 octets and the bus takes 9 address bits, where slots of 8 octets take 7. */
  lemma SingleWordsDefeatSearch()
    ensures var ws := Repeat(0, 7) + [4];
      && ChosenSlot(ws, 2, 0, 0) == 6
      && Width(ws, 2, 6, 0) == 9 && Width(ws, 2, 3, 0) == 7
  {
    var ws := Repeat(0, 7) + [4];
    Small();
    InvisibleWords(ws, 1); InvisibleWords(ws, 4);
    NextLgIs(16, 4);
    assert SomeWide(ws) by { assert ws[7] == 4; }
    SearchIsOptimal(ws, 2, 0, 0);
    assert Estimate(ws, 2, 6, 0) == 6;
    EqualSlots(ws, 2, 6, 6, 8);
    NextLgIs(512, 9);
    EqualSlots(ws, 2, 3, 3, 7);
    AlignUpIs(56, 6, 64);
    assert End(ws, 2, 3, 0, 8) == 128;
    NextLgIs(128, 7);
  }

  lemma InvisibleWords(ws: seq<nat>, m: nat)
    requires ws == Repeat(0, 7) + [4] && m <= 4
    ensures End(ws, 0, m, 0, 8) == 16
  {
    SkipWords(ws, m, 7);
    Small();
    AlignUpIs(0, 4, 0);
  }

  lemma {:induction false} SkipWords(ws: seq<nat>, m: nat, k: nat)
    requires k <= |ws| && forall i :: 0 <= i < k ==> ws[i] == 0
    ensures End(ws, 0, m, 0, k) == 0
  {
    if k > 0 { SkipWords(ws, m, k - 1); }
  }

  /** The 32-bit estimate can wrap.  Nine slaves on a byte-addressed bus, eight of 4 octets
      and one of 2^28: slots of 2^29 octets seem to fit 29 address bits because eight of
      them sum to 2^32, so the search takes them, and the bus needs 33 bits instead of 29. */
  lemma WrapDefeatsSearch()
    ensures var ws := Repeat(2, 8) + [28];
      && LeastTotal(ws, 0, 0) == 29
      && ChosenSlot(ws, 0, 0, 0) == 29
      && Width(ws, 0, 29, 0) == 33
  {
    hide Pow2, NextLg, AlignUp;
    var ws := Repeat(2, 8) + [28];
    BigPowers();
    LeastIs29(ws);
    Fits29(ws, 1);
    WrapInitial(ws);
    WrapSearch(ws, 2, Best(1, 29, 28));
    EqualSlots(ws, 0, 29, 29, 9);
    NextLgIs(9 * Pow2(29), 33);
  }

  lemma BigPowers()
    ensures Pow2(28) == 0x1000_0000 && Pow2(29) == 0x2000_0000 && Pow2(30) == 0x4000_0000
    ensures Pow2(31) == 0x8000_0000 && Pow2(32) == TWO32 && Pow2(33) == 2 * TWO32
    ensures Pow2(32) == TWO32
  {
    Pow32();
    assert Pow2(33) == 2 * Pow2(32);
    assert Pow2(31) == 2 * Pow2(30) && Pow2(30) == 2 * Pow2(29) && Pow2(29) == 2 * Pow2(28);
  }

  lemma LeastIs29(ws: seq<nat>)
    requires ws == Repeat(2, 8) + [28]
    ensures Estimate(ws, 0, 1, 0) == 29
  {
    hide NextLg, AlignUp;
    BigPowers();
    Small();
    EqualSlots(ws, 0, 1, 2, 8);
    AlignUpIs(32, 28, Pow2(28));
    NextLgIs(Pow2(29), 29);
  }

  /** Up to slots of 2^28 nothing wraps. */
  lemma Fits29(ws: seq<nat>, m: nat)
    requires ws == Repeat(2, 8) + [28] && 1 <= m <= 28
    ensures Estimate32(ws, 0, m, 0) == Estimate(ws, 0, m, 0) >= 29
  {
    BigPowers();
    EqualSlots(ws, 0, 28, 28, 9);
    FitsSlot(ws, m, 28, 0);
    LeastIs29(ws);
    EstimateMono(ws, 0, 1, m, 0);
  }

  lemma WrapInitial(ws: seq<nat>)
    requires ws == Repeat(2, 8) + [28]
    ensures Initial(ws, 0, 0, 0).total >= 29 && Initial(ws, 0, 0, 0).relevant == 32
    ensures LeastTotal(ws, 0, 0) == 29
  {
    Fits29(ws, 28);
    LeastIs29(ws);
  }

  lemma {:induction false} WrapSearch(ws: seq<nat>, m: nat, b: Best)
    requires ws == Repeat(2, 8) + [28] && 2 <= m <= 29 && b.total == 29 && b.relevant >= 30 - m
    ensures SearchFrom(ws, 0, 0, m, b).slot == 29
    decreases 29 - m
  {
    if m < 29 {
      Fits29(ws, m);
      WrapSearch(ws, m + 1, Consider(b, m, Estimate32(ws, 0, m, 0)));
    } else {
      WrappedEstimate(ws, 29); WrappedEstimate(ws, 30); WrappedEstimate(ws, 31);
      var c := Best(29, 29, 0);
      assert Consider(b, 29, 29) == c && Consider(c, 30, 30) == c && Consider(c, 31, 31) == c;
      assert SearchFrom(ws, 0, 0, 32, c) == c;
      assert SearchFrom(ws, 0, 0, 31, c) == c;
      assert SearchFrom(ws, 0, 0, 30, c) == c;
    }
  }

  lemma WrappedEstimate(ws: seq<nat>, m: nat)
    requires ws == Repeat(2, 8) + [28] && 29 <= m <= 31
    ensures Estimate32(ws, 0, m, 0) == m
  {
    hide Pow2, NextLg, Step32, AlignUp;
    BigPowers();
    EightWrap(ws, m, 8);
    assert End32(ws, m, 0, 9) == Step32(0, m);
    AlignedStep(0, m);
    NextLgPow2(m);
  }

  lemma {:induction false} EightWrap(ws: seq<nat>, m: nat, k: nat)
    requires ws == Repeat(2, 8) + [28] && 29 <= m <= 31 && k <= 8
    ensures End32(ws, m, 0, k) == (k * Pow2(m)) % TWO32
  {
    if k > 0 {
      EightWrap(ws, m, k - 1);
      BigPowers();
      WrapStep(End32(ws, m, 0, k - 1), m, k - 1);
    }
  }

  lemma AlignedStep(s: nat, m: nat)
    requires s % Pow2(m) == 0 && s + Pow2(m) <= TWO32
    ensures Step32(s, m) == (s + Pow2(m)) % TWO32
  {
    AlignUpFixed(s, m);
    ModSmall(s + Pow2(m) - 1, TWO32);
  }

  /** One window of an eighth, a quarter or a half of the 32-bit space. */
  lemma WrapStep(s: nat, m: nat, k: nat)
    requires 29 <= m <= 31 && k < 8 && s == (k * Pow2(m)) % TWO32
    ensures Step32(s, m) == ((k + 1) * Pow2(m)) % TWO32
  {
    hide Pow2, Step32;
    BigPowers();
    if m == 29 { CyclicStep(s, Pow2(29), k); }
    else if m == 30 { CyclicStep(s, Pow2(30), k); }
    else { CyclicStep(s, Pow2(31), k); }
    AlignedStep(s, m);
  }

  /** Counting around the circle of 2^32. */
  lemma CyclicStep(s: nat, p: nat, k: nat)
    requires p == 0x2000_0000 || p == 0x4000_0000 || p == 0x8000_0000
    requires k < 8 && s == (k * p) % TWO32
    ensures s % p == 0 && s + p <= TWO32 && (s + p) % TWO32 == ((k + 1) * p) % TWO32
  {
    if p == 0x2000_0000 {
    } else if p == 0x4000_0000 {
    } else {
    }
  }
}
