/** The address decoders emitted for the SINGLE (SIO) and DOUBLE (DIO) groups of a Wishbone
    bus: strobes, casez patterns and bit slices, against the masks of AddressMap. */
module WbDecode {
  import opened Bits
  import opened BitFields
  import opened Allocator
  import opened SlotSearch
  import opened AddressMap

  // ----- parameters of the emitted logic -----

  /** The OR of the first k masks. */
  function MaskOr(l: Layout, k: nat): nat
    requires k <= |l.mask|
  {
    if k == 0 then 0 else Or(MaskOr(l, k - 1), l.mask[k - 1])
  }

  /** unused_lsbs: trailing zeros of the combined mask. */
  function TrailingZeros(x: nat): nat {
    if x == 0 || x % 2 == 1 then 0 else 1 + TrailingZeros(x / 2)
  }

  method CountUnusedLsbs(mask: nat) returns (unused: nat)
    ensures unused == TrailingZeros(mask)
  {
    unused := 0;
    var tmp := mask;
    while tmp != 0 && tmp % 2 == 0
      invariant unused + TrailingZeros(tmp) == TrailingZeros(mask)
      decreases tmp
    {
      tmp := tmp / 2;
      unused := unused + 1;
    }
  }

  function Unused(l: Layout): nat {
    TrailingZeros(MaskOr(l, |l.mask|))
  }

  /** maskbits of the DIO mux, repaired to at least one bit. */
  function MaskBits(l: Layout): int {
    var n := NextLg(MaskOr(l, |l.mask|)) - Unused(l);
    if n < 1 then 1 else n
  }

  function Bit(x: nat, k: nat): nat {
    Shr(x, k) % 2
  }

  /** The casez pattern of DIO slave k accepts word address wa: every pattern position is a
      don't-care or equals the address bit. */
  ghost predicate CaseMatches(l: Layout, d: nat, k: nat, wa: nat)
    requires k < |l.base| == |l.mask|
  {
    forall shift: nat :: Unused(l) <= shift < Unused(l) + MaskBits(l) && Bit(l.mask[k], shift) != 0 ==>
      Bit(l.base[k], shift + d) == Bit(wa, shift)
  }

  /** The strobe of DIO slave k, for a bus strobe at word address wa. */
  predicate DioStrobe(l: Layout, d: nat, k: nat, wa: nat)
    requires k < |l.base| == |l.mask|
  {
    l.mask[k] != 0 && And(Shr(wa, Unused(l)), Shr(l.mask[k], Unused(l))) == Shr(l.base[k], Unused(l) + d)
  }

  // ----- bits and blocks -----

  lemma ShrOne(x: nat, l: nat)
    ensures Shr(x, l) == 2 * Shr(x, l + 1) + Bit(x, l)
  {
    ShrShr(x, l, 1);
    HalfIsShr(Shr(x, l));
  }

  lemma HalfIsShr(y: nat)
    ensures Shr(y, 1) == y / 2
  {
    assert Pow2(1) == 2;
  }

  lemma ShrOut(x: nat, h: nat)
    requires x < Pow2(h)
    ensures Shr(x, h) == 0
  {
    ModSmall(x, Pow2(h));
  }

  /** Equal bits from l up to the width is equality of the blocks at l. */
  lemma {:induction false} BitsAreBlock(x: nat, y: nat, l: nat, h: nat)
    requires l <= h && x < Pow2(h) && y < Pow2(h)
    ensures (forall s :: l <= s < h ==> Bit(x, s) == Bit(y, s)) <==> Shr(x, l) == Shr(y, l)
    decreases h - l
  {
    hide Shr, Pow2, Bit;
    if l == h {
      ShrOut(x, h);
      ShrOut(y, h);
    } else {
      BitsAreBlock(x, y, l + 1, h);
      ShrOne(x, l);
      ShrOne(y, l);
      BitBelowTwo(x, l);
      BitBelowTwo(y, l);
    }
  }

  lemma BitBelowTwo(x: nat, l: nat)
    ensures 0 <= Bit(x, l) < 2
  {
  }

  lemma {:induction false} BitOfMask(l: nat, h: nat, s: nat)
    requires l <= h
    ensures Pow2(l) <= Pow2(h) && (Bit(Pow2(h) - Pow2(l), s) != 0 <==> l <= s < h)
    decreases h
  {
    hide Pow2, Shr;
    Pow2Mono(l, h);
    if h == l {
      ShrZero(s);
    } else {
      var m := Pow2(h) - Pow2(l);
      HalfMask(l, h);
      if s == 0 {
        ShrNothing(m);
      } else {
        ShrShr(m, 1, s - 1);
        HalfIsShr(m);
        BitOfMask(if l == 0 then 0 else l - 1, h - 1, s - 1);
      }
    }
  }

  lemma ShrZero(s: nat)
    ensures Shr(0, s) == 0 && Bit(0, s) == 0
  {
    ModSmall(0, Pow2(s));
  }

  lemma {:induction false} OrOfMasks(a: nat, b: nat, h: nat)
    requires a <= h && b <= h
    ensures Pow2(a) <= Pow2(h) && Pow2(b) <= Pow2(h)
    ensures Or(Pow2(h) - Pow2(a), Pow2(h) - Pow2(b)) == Pow2(h) - Pow2(if a <= b then a else b)
    decreases h
  {
    hide Pow2, Or;
    Pow2Mono(a, h);
    Pow2Mono(b, h);
    var m, n := Pow2(h) - Pow2(a), Pow2(h) - Pow2(b);
    if a == h || b == h {
      OrWithZero(m, n);
    } else {
      OrHalf(m, n);
      HalfMask(a, h);
      HalfMask(b, h);
      HalfMask(if a <= b then a else b, h);
      OrOfMasks(if a == 0 then 0 else a - 1, if b == 0 then 0 else b - 1, h - 1);
    }
  }

  lemma HalfMask(a: nat, h: nat)
    requires a < h
    ensures Pow2(a) <= Pow2(h) && Pow2(if a == 0 then 0 else a - 1) <= Pow2(h - 1)
    ensures (Pow2(h) - Pow2(a)) / 2 == Pow2(h - 1) - Pow2(if a == 0 then 0 else a - 1)
    ensures (Pow2(h) - Pow2(a)) % 2 == (if a == 0 then 1 else 0)
  {
    Pow2Mono(a, h);
    Pow2Mono(if a == 0 then 0 else a - 1, h - 1);
    if a == 0 {
      assert Pow2(h) - 1 == 2 * (Pow2(h - 1) - 1) + 1;
    } else {
      assert Pow2(h) - Pow2(a) == 2 * (Pow2(h - 1) - Pow2(a - 1));
    }
  }

  lemma {:induction false} ZerosOfMask(a: nat, h: nat)
    requires a < h
    ensures Pow2(a) < Pow2(h) && TrailingZeros(Pow2(h) - Pow2(a)) == a
    decreases a
  {
    Pow2Mono(a, h);
    HalfMask(a, h);
    if a > 0 { ZerosOfMask(a - 1, h - 1); }
  }

  /** NextLg of a mask of ones is its top, except for a mask of a single one. */
  lemma TopOfMask(a: nat, h: nat, mask: nat)
    requires a < h && mask == Pow2(h) - Pow2(a)
    ensures h == a + 1 ==> NextLg(mask) == a
    ensures h > a + 1 ==> NextLg(mask) == h
  {
    hide NextLg, Pow2;
    Pow2Mono(a, h - 1);
    Pow2Succ(h);
    Pow2Succ(a);
    NextLgIs(mask, if h == a + 1 then a else h);
  }

  // ----- a DIO group -----

  /** The fields of a group of two or more slaves of at least two octets each. */
  ghost predicate Group(ws: seq<nat>, d: nat, l: Layout) {
    && d <= 14 && |ws| >= 2 && AllPositive(ws, d) && l == LayoutOf(ws, d, 0, 0)
  }

  lemma GroupLengths(ws: seq<nat>, d: nat, l: Layout)
    requires Group(ws, d, l)
    ensures d <= 14 && |l.base| == |l.mask| == |ws|
  {
  }

  /** Low end of slave k's mask, in word address bits. */
  ghost function Low(ws: seq<nat>, d: nat, k: nat): (r: nat)
    requires d <= 14 && k < |ws|
  {
    Slot(ws[k], d, ChosenSlot(ws, d, Shr(0, d), 0)) - d
  }

  lemma GroupField(ws: seq<nat>, d: nat, l: Layout, k: nat)
    requires Group(ws, d, l) && k < |ws|
    ensures d <= l.width && Low(ws, d, k) < l.width - d
    ensures Pow2(Low(ws, d, k)) <= Pow2(l.width - d)
    ensures l.mask[k] == Pow2(l.width - d) - Pow2(Low(ws, d, k))
    ensures Shr(l.base[k], d) < Pow2(l.width - d)
    ensures l.base[k] % Pow2(Low(ws, d, k) + d) == 0
  {
    hide Pow2, PlacedLayout, ChosenSlot, And, Base, Mask, Width, Slot, Shr;
    var m := ChosenSlot(ws, d, Shr(0, d), 0);
    PlacedField(ws, d, m, k);
  }

  lemma PlacedField(ws: seq<nat>, d: nat, m: nat, k: nat)
    requires |ws| >= 2 && AllPositive(ws, d) && k < |ws|
    ensures var w, p := Width(ws, d, m, 0), Slot(ws[k], d, m);
      && d <= p < w
      && Pow2(p - d) <= Pow2(w - d) && Mask(ws, d, m, 0, k) == Pow2(w - d) - Pow2(p - d)
      && Shr(Base(ws, d, m, 0, k), d) < Pow2(w - d)
      && Base(ws, d, m, 0, k) % Pow2(p) == 0
  {
    hide Pow2, AlignUp, End, And;
    var w, p := Width(ws, d, m, 0), Slot(ws[k], d, m);
    WindowFits(ws, d, m, 0, k);
    TwoWindows(ws, d, m, 0, k);
    Pow2Mono(p - d, w - d);
    ShrBelow(Base(ws, d, m, 0, k), d, w);
  }

  /** The least low end among the first k slaves. */
  ghost function LowMin(ws: seq<nat>, d: nat, k: nat): nat
    requires d <= 14 && 0 < k <= |ws|
  {
    if k == 1 then Low(ws, d, 0)
    else
      var a, b := LowMin(ws, d, k - 1), Low(ws, d, k - 1);
      if a <= b then a else b
  }

  lemma {:induction false} LowMinBelow(ws: seq<nat>, d: nat, i: nat, k: nat)
    requires d <= 14 && i < k <= |ws|
    ensures LowMin(ws, d, k) <= Low(ws, d, i)
    decreases k
  {
    if i < k - 1 { LowMinBelow(ws, d, i, k - 1); }
  }

  lemma {:induction false} MaskOrIs(ws: seq<nat>, d: nat, l: Layout, k: nat)
    requires Group(ws, d, l) && 0 < k <= |ws|
    ensures d <= l.width && LowMin(ws, d, k) < l.width - d
    ensures Pow2(LowMin(ws, d, k)) <= Pow2(l.width - d)
    ensures MaskOr(l, k) == Pow2(l.width - d) - Pow2(LowMin(ws, d, k))
  {
    hide Pow2, Or, Low, LayoutOf;
    GroupField(ws, d, l, k - 1);
    if k == 1 {
      OrWithZero(0, l.mask[0]);
      assert MaskOr(l, 0) == 0;
    } else {
      MaskOrIs(ws, d, l, k - 1);
      OrOfMasks(LowMin(ws, d, k - 1), Low(ws, d, k - 1), l.width - d);
    }
  }

  /** The slice the DIO mux looks at runs from the lowest decoded bit to the top of the bus,
      also when a single bit is decoded. */
  lemma SliceIsWholeField(ws: seq<nat>, d: nat, l: Layout)
    requires Group(ws, d, l)
    ensures d <= l.width && Unused(l) == LowMin(ws, d, |ws|) < l.width - d
    ensures Unused(l) + MaskBits(l) == l.width - d
  {
    hide Pow2, Or, Low, LayoutOf, TrailingZeros, NextLg;
    MaskOrIs(ws, d, l, |ws|);
    ZerosOfMask(LowMin(ws, d, |ws|), l.width - d);
    TopOfMask(LowMin(ws, d, |ws|), l.width - d, MaskOr(l, |ws|));
  }

  /** The casez pattern of slave k is a test on its block of word addresses. */
  lemma CaseIsBlock(ws: seq<nat>, d: nat, l: Layout, k: nat, wa: nat)
    requires Group(ws, d, l) && k < |ws| && d <= l.width && wa < Pow2(l.width - d)
    ensures CaseMatches(l, d, k, wa) <==> Shr(wa, Low(ws, d, k)) == Shr(Shr(l.base[k], d), Low(ws, d, k))
  {
    hide Pow2, Bit, Low, Unused, MaskBits, LayoutOf, Shr;
    var low, h, bw := Low(ws, d, k), l.width - d, Shr(l.base[k], d);
    GroupField(ws, d, l, k);
    SliceIsWholeField(ws, d, l);
    LowMinBelow(ws, d, k, |ws|);
    BitsAreBlock(bw, wa, low, h);
    forall s: nat ensures Bit(l.base[k], s + d) == Bit(bw, s) {
      BitShifted(l.base[k], d, s);
    }
    forall s: nat ensures Bit(l.mask[k], s) != 0 <==> low <= s < h {
      BitOfMask(low, h, s);
    }
  }

  lemma BitShifted(x: nat, d: nat, s: nat)
    ensures Bit(x, s + d) == Bit(Shr(x, d), s)
  {
    ShrShr(x, d, s);
  }

  /** So is its strobe. */
  lemma StrobeIsBlock(ws: seq<nat>, d: nat, l: Layout, k: nat, wa: nat)
    requires Group(ws, d, l) && k < |ws| && d <= l.width && wa < Pow2(l.width - d)
    ensures DioStrobe(l, d, k, wa) <==> Shr(wa, Low(ws, d, k)) == Shr(Shr(l.base[k], d), Low(ws, d, k))
  {
    hide Pow2, Low, Unused, LayoutOf, Shr, And, Group, LowMin;
    GroupLengths(ws, d, l);
    var low, h, u, bw := Low(ws, d, k), l.width - d, Unused(l), Shr(l.base[k], d);
    GroupField(ws, d, l, k);
    SliceIsWholeField(ws, d, l);
    LowMinBelow(ws, d, k, |ws|);
    Pow2Mono(low, h);
    ShrMask(low, h, u);
    MaskedShift(wa, low, h, u);
    AlignedShift(l.base[k], d, low, u);
    CancelFactor(Pow2(low - u), Shr(wa, low), Shr(bw, low));
  }

  lemma ShrMask(low: nat, h: nat, u: nat)
    requires u <= low < h
    ensures Pow2(low) <= Pow2(h) && Pow2(low - u) <= Pow2(h - u)
    ensures Shr(Pow2(h) - Pow2(low), u) == Pow2(h - u) - Pow2(low - u)
  {
    hide Pow2;
    Pow2Mono(low, h);
    Pow2Mono(low - u, h - u);
    OctetDifference(u, low, h);
    MulMod(Pow2(h - u) - Pow2(low - u), Pow2(u));
  }

  lemma OctetDifference(u: nat, low: nat, h: nat)
    requires u <= low <= h
    ensures Pow2(low - u) <= Pow2(h - u)
    ensures Pow2(h) - Pow2(low) == Pow2(u) * (Pow2(h - u) - Pow2(low - u))
  {
    hide Pow2;
    Pow2Mono(low - u, h - u);
    Pow2Add(u, low - u);
    Pow2Add(u, h - u);
    Distribute(Pow2(u), Pow2(h - u) - Pow2(low - u), Pow2(low - u));
  }

  lemma MaskedShift(wa: nat, low: nat, h: nat, u: nat)
    requires u <= low < h && wa < Pow2(h)
    ensures Pow2(low - u) <= Pow2(h - u)
    ensures And(Shr(wa, u), Pow2(h - u) - Pow2(low - u)) == Pow2(low - u) * Shr(wa, low)
  {
    MaskedWord(wa, u, low, h);
  }

  lemma AlignedShift(base: nat, d: nat, low: nat, u: nat)
    requires u <= low && base % Pow2(low + d) == 0
    ensures Shr(base, u + d) == Pow2(low - u) * Shr(Shr(base, d), low)
  {
    hide Pow2, Shr;
    ShrShr(base, d, low);
    ShrShr(base, u + d, low - u);
    var x := Shr(base, u + d);
    LowBitsClear(base, u + d, low - u);
    DropRemainder(x, Pow2(low - u));
    ShrIs(x, low - u);
  }

  lemma ShrIs(x: nat, s: nat)
    ensures Shr(x, s) == x / Pow2(s)
  {
  }

  lemma LowBitsClear(base: nat, a: nat, b: nat)
    requires base % Pow2(a + b) == 0
    ensures Shr(base, a) % Pow2(b) == 0
  {
    hide Pow2;
    Pow2Add(a, b);
    var q := base / (Pow2(a) * Pow2(b));
    assert base == q * (Pow2(a) * Pow2(b));
    assert q * (Pow2(a) * Pow2(b)) == (q * Pow2(b)) * Pow2(a);
    MulMod(q * Pow2(b), Pow2(a));
    MulMod(q, Pow2(b));
  }

  /** So is the mask comparison of the allocator. */
  lemma SelectIsBlock(ws: seq<nat>, d: nat, l: Layout, k: nat, a: nat)
    requires Group(ws, d, l) && k < |ws| && a < Pow2(l.width)
    ensures Selects(l, d, k, a) <==> Shr(Shr(a, d), Low(ws, d, k)) == Shr(Shr(l.base[k], d), Low(ws, d, k))
  {
    hide Pow2, Low, LayoutOf, Shr, And, AllPositive;
    GroupField(ws, d, l, k);
    ShrBelow(a, d, l.width);
    SameHighBits(Shr(a, d), Shr(l.base[k], d), Low(ws, d, k), l.width - d);
  }

  /** Two values agree under a mask of all bits from l up exactly when their blocks agree. */
  lemma SameHighBits(x: nat, y: nat, l: nat, h: nat)
    requires l <= h && x < Pow2(h) && y < Pow2(h)
    ensures Pow2(l) <= Pow2(h)
    ensures And(x, Pow2(h) - Pow2(l)) == And(y, Pow2(h) - Pow2(l)) <==> Shr(x, l) == Shr(y, l)
  {
    hide Pow2, Shr, And;
    AndHighBits(x, l, h);
    AndHighBits(y, l, h);
    CancelFactor(Pow2(l), Shr(x, l), Shr(y, l));
  }

  /** The emitted strobe, the emitted casez pattern and the allocator's mask test agree on
      every address of the group, though each is built from different bit slices. */
  lemma DecodersAgree(ws: seq<nat>, d: nat, l: Layout, k: nat, a: nat)
    requires Group(ws, d, l) && k < |ws| && a < Pow2(l.width)
    ensures DioStrobe(l, d, k, Shr(a, d)) <==> Selects(l, d, k, a)
    ensures CaseMatches(l, d, k, Shr(a, d)) <==> Selects(l, d, k, a)
  {
    hide Pow2, Low, LayoutOf, Shr, DioStrobe, CaseMatches, Selects;
    GroupField(ws, d, l, k);
    ShrBelow(a, d, l.width);
    SelectIsBlock(ws, d, l, k, a);
    StrobeIsBlock(ws, d, l, k, Shr(a, d));
    CaseIsBlock(ws, d, l, k, Shr(a, d));
  }

  /** The bus_select register's next value: the first pattern that matches, else 0. */
  ghost function DioIndex(l: Layout, d: nat, wa: nat, k: nat): nat
    requires k <= |l.base| == |l.mask|
    decreases |l.base| - k
  {
    if k == |l.base| then 0
    else if CaseMatches(l, d, k, wa) then k
    else DioIndex(l, d, wa, k + 1)
  }

  lemma {:induction false} FirstMatch(l: Layout, d: nat, wa: nat, j: nat, k: nat)
    requires j <= k < |l.base| == |l.mask| && CaseMatches(l, d, k, wa)
    requires forall i :: j <= i < k ==> !CaseMatches(l, d, i, wa)
    ensures DioIndex(l, d, wa, j) == k
    decreases k - j
  {
    if j < k { FirstMatch(l, d, wa, j + 1, k); }
  }

  /** At most one slave answers: two distinct strobes never coincide. */
  lemma OneStrobe(ws: seq<nat>, d: nat, l: Layout, i: nat, k: nat, a: nat)
    requires Group(ws, d, l) && i < |ws| && k < |ws| && i != k && a < Pow2(l.width)
    requires DioStrobe(l, d, k, Shr(a, d))
    ensures !DioStrobe(l, d, i, Shr(a, d))
  {
    hide Pow2, DioStrobe, Shr, LayoutOf;
    DecodersAgree(ws, d, l, i, a);
    DecodersAgree(ws, d, l, k, a);
    ExclusiveIff(ws, d, 0, 0);
  }

  /** On every address that strobes a slave, the mux picks exactly that slave. */
  lemma MuxFollowsStrobe(ws: seq<nat>, d: nat, l: Layout, k: nat, a: nat)
    requires Group(ws, d, l) && k < |ws| && a < Pow2(l.width)
    requires exists j :: 0 <= j < |ws| && DioStrobe(l, d, j, Shr(a, d))
    ensures DioStrobe(l, d, k, Shr(a, d)) <==> DioIndex(l, d, Shr(a, d), 0) == k
  {
    hide Pow2, DioStrobe, Shr, LayoutOf, CaseMatches;
    var j :| 0 <= j < |ws| && DioStrobe(l, d, j, Shr(a, d));
    DecodersAgree(ws, d, l, j, a);
    forall i | 0 <= i < |ws| && i != j ensures !CaseMatches(l, d, i, Shr(a, d)) && !DioStrobe(l, d, i, Shr(a, d)) {
      OneStrobe(ws, d, l, i, j, a);
      DecodersAgree(ws, d, l, i, a);
    }
    FirstMatch(l, d, Shr(a, d), 0, j);
  }

  /** On an address that strobes no slave the mux rests at the first. */
  lemma MuxIdle(ws: seq<nat>, d: nat, l: Layout, a: nat)
    requires Group(ws, d, l) && a < Pow2(l.width)
    requires forall i :: 0 <= i < |ws| ==> !DioStrobe(l, d, i, Shr(a, d))
    ensures DioIndex(l, d, Shr(a, d), 0) == 0
  {
    hide Pow2, DioStrobe, Shr, LayoutOf, CaseMatches;
    forall i | 0 <= i < |ws| ensures !CaseMatches(l, d, i, Shr(a, d)) { DecodersAgree(ws, d, l, i, a); }
    NoMatch(l, d, Shr(a, d), 0);
  }

  lemma {:induction false} NoMatch(l: Layout, d: nat, wa: nat, k: nat)
    requires k <= |l.base| == |l.mask| && forall i :: 0 <= i < |l.base| ==> !CaseMatches(l, d, i, wa)
    ensures DioIndex(l, d, wa, k) == 0
    decreases |l.base| - k
  {
    if k < |l.base| { NoMatch(l, d, wa, k + 1); }
  }

  // ----- an SIO group -----

  /** n slaves of one word each, on a bus of at least 16 bits. */
  ghost predicate SingleGroup(n: nat, d: nat, l: Layout) {
    1 <= d <= 14 && l == LayoutOf(Repeat(0, n), d, 0, 0)
  }

  /** The search finds nothing to widen: slots are single words. */
  lemma WordSlots(n: nat, d: nat)
    requires n >= 1 && 1 <= d <= 14
    ensures ChosenSlot(Repeat(0, n), d, 0, 0) == d
  {
    hide NextLg, Pow2, Step32;
    NoWords(Repeat(0, n), WordSlot(d + 1, d), n);
    NextLgIs(0, 0);
  }

  lemma {:induction false} NoWords(ws: seq<nat>, m: nat, k: nat)
    requires k <= |ws| && forall i :: 0 <= i < k ==> ws[i] == 0
    ensures End32(ws, m, 0, k) == 0
  {
    if k > 0 { NoWords(ws, m, k - 1); }
  }

  lemma SingleLayout(n: nat, d: nat)
    requires n >= 2 && 1 <= d <= 14
    ensures LayoutOf(Repeat(0, n), d, 0, 0) == PlacedLayout(Repeat(0, n), d, d, 0)
  {
    hide NextLg, Pow2, ChosenSlot, PlacedLayout, AlignUp, Repeat;
    ModSmall(0, Pow2(d));
    WordSlots(n, d);
  }

  lemma SingleBase(ws: seq<nat>, d: nat, j: nat)
    requires d >= 1 && j < |ws| && forall i :: 0 <= i < |ws| ==> ws[i] == 0
    ensures Base(ws, d, d, 0, j) == j * Pow2(d)
  {
    hide NextLg, Pow2, AlignUp, End;
    EqualSlots(ws, d, d, d, j);
    MulMod(j, Pow2(d));
    AlignUpFixed(j * Pow2(d), d);
  }

  lemma SingleWidth(ws: seq<nat>, d: nat)
    requires d >= 1 && |ws| > 0 && forall i :: 0 <= i < |ws| ==> ws[i] == 0
    ensures Width(ws, d, d, 0) == NextLg(|ws|) + d
  {
    hide NextLg, Pow2, AlignUp, End;
    EqualSlots(ws, d, d, d, |ws|);
    NextLgScale(|ws|, d);
    Commute(|ws|, Pow2(d));
  }

  /** SINGLE slaves sit in consecutive words, and all share one mask. */
  lemma SingleFields(n: nat, d: nat, l: Layout, j: nat)
    requires SingleGroup(n, d, l) && n >= 2 && j < n
    ensures l.width == NextLg(n) + d && l.mask[j] == Pow2(NextLg(n)) - 1
    ensures l.base[j] == j * Pow2(d) && Shr(l.base[j], d) == j
  {
    hide NextLg, Pow2, LayoutOf, PlacedLayout, Base, Width, End;
    var ws := Repeat(0, n);
    SingleLayout(n, d);
    SingleBase(ws, d, j);
    SingleWidth(ws, d);
    MulMod(j, Pow2(d));
    Pow2Succ(0);
  }

  lemma {:induction false} SingleMaskOr(n: nat, d: nat, l: Layout, k: nat)
    requires SingleGroup(n, d, l) && n >= 2 && 0 < k <= n
    ensures MaskOr(l, k) == Pow2(NextLg(n)) - 1
  {
    hide NextLg, Pow2, Or, LayoutOf;
    SingleFields(n, d, l, k - 1);
    if k == 1 {
      OrWithZero(0, l.mask[0]);
      assert MaskOr(l, 0) == 0;
    } else {
      SingleMaskOr(n, d, l, k - 1);
      Pow2Succ(0);
      OrOfMasks(0, 0, NextLg(n));
    }
  }

  /** The top index of the SIO mux slice, as emitted: not repaired for a one-bit mask. */
  function SioTop(l: Layout): int {
    NextLg(MaskOr(l, |l.mask|)) - 1
  }

  /** The emitted slice addr[top:unused] has its ends in order exactly when the group has
      three or more slaves; with one or two it is addr[-1:0]. */
  lemma SioSliceLegalIff(n: nat, d: nat, l: Layout)
    requires SingleGroup(n, d, l) && n >= 1
    ensures Unused(l) == 0
    ensures SioTop(l) >= Unused(l) <==> n >= 3
    ensures n >= 3 ==> SioTop(l) == NextLg(n) - 1
  {
    hide NextLg, Pow2, Or, LayoutOf;
    if n == 1 {
      LoneSingle(d, l);
    } else {
      SingleMaskOr(n, d, l, n);
      NextLgLeast(n, 0);
      Pow2Succ(1);
      ZerosOfMask(0, NextLg(n));
      TopOfMask(0, NextLg(n), MaskOr(l, n));
      NextLgLeast(n, 1);
    }
  }

  lemma LoneSingle(d: nat, l: Layout)
    requires SingleGroup(1, d, l)
    ensures MaskOr(l, 1) == 0 && NextLg(0) == 0 && TrailingZeros(0) == 0 && |l.mask| == 1
  {
    assert l.mask == [0];
    assert MaskOr(l, 0) == 0;
  }

  /** The strobe of SINGLE slave j: the group's whole address equals its own. */
  predicate SioStrobe(l: Layout, d: nat, j: nat, wa: nat)
    requires j < |l.base| == |l.mask|
  {
    l.mask[j] != 0 && Shr(wa, Unused(l)) == Shr(l.base[j], Unused(l) + d)
  }

  /** The slave whose data the SIO mux registers: the first case label that equals the
      address slice, else the default, which is the last slave. */
  function SioIndex(l: Layout, d: nat, wa: nat, k: nat): nat
    requires k <= |l.base|
    decreases |l.base| - k
  {
    if k == |l.base| then (if k == 0 then 0 else k - 1)
    else if Shr(wa, Unused(l)) == Shr(l.base[k], Unused(l) + d) then k
    else SioIndex(l, d, wa, k + 1)
  }

  /** In a group of three or more, the address is the slave's index: strobe and mux agree,
      and addresses past the last slave read the last slave without strobing any. */
  lemma SioDecode(n: nat, d: nat, l: Layout, j: nat, wa: nat)
    requires SingleGroup(n, d, l) && n >= 3 && j < n
    ensures SioStrobe(l, d, j, wa) <==> wa == j
    ensures SioIndex(l, d, wa, 0) == if wa < n then wa else n - 1
  {
    hide NextLg, Pow2, Or, LayoutOf, Shr;
    SioSliceLegalIff(n, d, l);
    forall i | 0 <= i < n ensures Shr(l.base[i], d) == i && l.mask[i] != 0 {
      SingleFields(n, d, l, i);
      SingleMaskNonZero(n);
    }
    ShrNothing(wa);
    SioScan(l, d, wa, 0, n);
  }

  lemma SingleMaskNonZero(n: nat)
    requires n >= 2
    ensures Pow2(NextLg(n)) - 1 > 0
  {
  }

  lemma {:induction false} SioScan(l: Layout, d: nat, wa: nat, k: nat, n: nat)
    requires |l.base| == n > 0 && k <= n && k <= wa + (if wa < n then 0 else n) && Unused(l) == 0
    requires forall i :: 0 <= i < n ==> Shr(l.base[i], d) == i
    ensures SioIndex(l, d, wa, k) == if k <= wa < n then wa else n - 1
    decreases n - k
  {
    hide Shr;
    ShrNothing(wa);
    if k < n && wa != k { SioScan(l, d, wa, k + 1, n); }
  }
}
