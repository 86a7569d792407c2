/** Bases, decode masks and bus width: what PLIST::assign_addresses leaves behind, and the
    proof that mask decoding selects exactly the windows that were handed out. */
module AddressMap {
  import opened Bits
  import opened Allocator
  import opened SlotSearch

  /** Octet address bits of the whole bus. */
  function Width(ws: seq<nat>, d: nat, m: nat, s0: nat): nat {
    NextLg(End(ws, d, m, s0, |ws|))
  }

  lemma WindowFits(ws: seq<nat>, d: nat, m: nat, s0: nat, i: nat)
    requires i < |ws| && ws[i] + d >= 1
    ensures s0 <= End(ws, d, m, s0, i) <= Base(ws, d, m, s0, i)
    ensures Base(ws, d, m, s0, i) % Pow2(Slot(ws[i], d, m)) == 0
    ensures Base(ws, d, m, s0, i) + Pow2(Slot(ws[i], d, m)) == End(ws, d, m, s0, i + 1)
    ensures End(ws, d, m, s0, i + 1) <= Pow2(Width(ws, d, m, s0))
    ensures d <= Slot(ws[i], d, m) <= Width(ws, d, m, s0)
  {
    var p, w := Slot(ws[i], d, m), Width(ws, d, m, s0);
    EndMono(ws, d, m, s0, 0, i);
    EndMono(ws, d, m, s0, i + 1, |ws|);
    if w < p { Pow2Mono(w, p); }
  }

  /** p_mask after trimming, in bus units: ones from the slot up to the bus width. */
  function Mask(ws: seq<nat>, d: nat, m: nat, s0: nat, i: nat): nat
    requires i < |ws|
  {
    if ws[i] + d == 0 then 0
    else
      SlotFits(ws, d, m, s0, i);
      Ones(Slot(ws[i], d, m) - d, Width(ws, d, m, s0) - d)
  }

  /** Ones in bit positions l..h-1. */
  function Ones(l: nat, h: nat): (r: nat)
    requires l <= h
    ensures Pow2(l) <= Pow2(h) && r == Pow2(h) - Pow2(l)
  {
    Pow2Mono(l, h);
    Pow2(h) - Pow2(l)
  }

  lemma SlotFits(ws: seq<nat>, d: nat, m: nat, s0: nat, i: nat)
    requires i < |ws| && ws[i] + d >= 1
    ensures d <= Slot(ws[i], d, m) <= Width(ws, d, m, s0)
  {
    hide Width, Slot;
    WindowFits(ws, d, m, s0, i);
  }

  /** The source computes the mask as (-1)<<(p-d) in a register of 64 bits, then ANDs it
      with the bus's own mask; the result does not depend on the register's width. */
  lemma MaskByTrimming(p: nat, d: nat, w: nat, bits: nat)
    requires d <= p <= w && w - d <= bits
    ensures Pow2(p - d) <= Pow2(w - d) && Pow2(p - d) <= Pow2(bits)
    ensures And(Pow2(bits) - Pow2(p - d), Pow2(w - d) - 1) == Pow2(w - d) - Pow2(p - d)
  {
    hide Pow2, And;
    var l, h := p - d, w - d;
    Pow2Succ(0);
    Pow2Mono(l, h);
    Pow2Mono(h, bits);
    AndMask(Pow2(bits) - Pow2(l), 0, h);
    Pow2Add(bits - h, h);
    LowOnes(Pow2(bits), Pow2(bits - h), Pow2(h), Pow2(l));
  }

  /** The remainder of k*m - x modulo m is m - x. */
  lemma LowOnes(t: nat, k: nat, m: nat, x: nat)
    requires k > 0 && 0 < x <= m <= t && t == k * m
    ensures (t - x) % m == m - x
  {
    assert (k - 1) * m + m == k * m;
    DivUnique(t - x, m, k - 1, m - x);
  }

  // ----- mask decoding -----

  /** (address & mask) == (base & mask), both addresses in bus units. */
  predicate MaskMatch(a: nat, base: nat, mask: nat, d: nat) {
    And(Shr(a, d), mask) == And(Shr(base, d), mask)
  }

  lemma ShrBelow(a: nat, d: nat, w: nat)
    requires d <= w && a < Pow2(w)
    ensures Shr(a, d) < Pow2(w - d)
  {
    Pow2Add(d, w - d);
    DivBelow(a, Pow2(d), Pow2(w - d));
  }

  lemma DivBelow(a: nat, m: nat, q: nat)
    requires m > 0 && a < m * q
    ensures a / m < q
  {
  }

  lemma DropRemainder(x: nat, m: nat)
    requires m > 0
    ensures x - x % m == m * (x / m)
  {
  }

  /** Masking all bits from l up keeps the high part. */
  lemma AndHighBits(x: nat, l: nat, h: nat)
    requires l <= h && x < Pow2(h)
    ensures Pow2(h) >= Pow2(l) && And(x, Pow2(h) - Pow2(l)) == Pow2(l) * Shr(x, l)
  {
    hide Pow2, And;
    AndMask(x, l, h);
    ModSmall(x, Pow2(h));
    DropRemainder(x, Pow2(l));
  }

  lemma MaskedWord(a: nat, d: nat, p: nat, w: nat)
    requires d <= p <= w && a < Pow2(w)
    ensures Pow2(w - d) >= Pow2(p - d)
    ensures And(Shr(a, d), Pow2(w - d) - Pow2(p - d)) == Pow2(p - d) * Shr(a, p)
  {
    hide Pow2, And, Shr;
    ShrBelow(a, d, w);
    AndHighBits(Shr(a, d), p - d, w - d);
    ShrShr(a, d, p - d);
  }

  lemma SameBlock(a: nat, b: nat, m: nat)
    requires m > 0 && b % m == 0
    ensures a / m == b / m <==> b <= a < b + m
  {
    assert a == (a / m) * m + a % m && b == (b / m) * m;
    if a / m < b / m { MultipleGap(a / m, b / m, m); }
    if b / m < a / m { MultipleGap(b / m, a / m, m); }
  }

  lemma CancelFactor(k: nat, x: nat, y: nat)
    requires k > 0
    ensures k * x == k * y <==> x == y
  {
  }

  /** A mask of ones above the slot accepts exactly the aligned window of that slot. */
  lemma MatchIsWindow(a: nat, base: nat, d: nat, p: nat, w: nat)
    requires d <= p <= w && a < Pow2(w) && base < Pow2(w) && base % Pow2(p) == 0
    ensures Pow2(w - d) >= Pow2(p - d)
    ensures MaskMatch(a, base, Pow2(w - d) - Pow2(p - d), d) <==> base <= a < base + Pow2(p)
  {
    MaskedWord(a, d, p, w);
    MaskedWord(base, d, p, w);
    CancelFactor(Pow2(p - d), Shr(a, p), Shr(base, p));
    SameBlock(a, base, Pow2(p));
  }

  /** Decoder exactness for every slave of more than one octet. */
  lemma DecodeExact(ws: seq<nat>, d: nat, m: nat, s0: nat, i: nat, a: nat)
    requires i < |ws| && ws[i] + d >= 1 && a < Pow2(Width(ws, d, m, s0))
    ensures MaskMatch(a, Base(ws, d, m, s0, i), Mask(ws, d, m, s0, i), d)
       <==> Base(ws, d, m, s0, i) <= a < Base(ws, d, m, s0, i) + Pow2(Slot(ws[i], d, m))
  {
    hide AlignUp, End, Pow2, NextLg, And, MaskMatch, Base, Slot, Width, Shr;
    WindowFits(ws, d, m, s0, i);
    MatchIsWindow(a, Base(ws, d, m, s0, i), d, Slot(ws[i], d, m), Width(ws, d, m, s0));
  }

  /** Windows follow one another in list order. */
  lemma WindowsOrdered(ws: seq<nat>, d: nat, m: nat, s0: nat, i: nat, j: nat)
    requires i < j < |ws| && ws[i] + d >= 1
    ensures Base(ws, d, m, s0, i) + Pow2(Slot(ws[i], d, m)) <= Base(ws, d, m, s0, j)
  {
    WindowFits(ws, d, m, s0, i);
    EndMono(ws, d, m, s0, i + 1, j);
  }

  // ----- the whole assignment -----

  /** What a bus ends up with: p_base and p_mask of each slave, and its octet width. */
  datatype Layout = Layout(base: seq<nat>, mask: seq<nat>, width: nat)

  function LayoutOf(ws: seq<nat>, d: nat, nullsz: nat, busMin: nat): (l: Layout)
    requires d <= 14
    ensures |l.base| == |l.mask| == |ws|
  {
    if |ws| == 0 then Layout([], [], NextLg(nullsz) + d)
    else if |ws| == 1 && nullsz == 0 then Layout([0], [0], ws[0] + d)
    else PlacedLayout(ws, d, ChosenSlot(ws, d, Shr(nullsz, d), busMin), nullsz)
  }

  function PlacedLayout(ws: seq<nat>, d: nat, m: nat, s0: nat): (l: Layout)
    ensures |l.base| == |l.mask| == |ws| && l.width == Width(ws, d, m, s0)
    ensures forall i :: 0 <= i < |ws| ==> l.base[i] == Base(ws, d, m, s0, i)
    ensures forall i :: 0 <= i < |ws| ==> l.mask[i] == Mask(ws, d, m, s0, i)
  {
    Layout(seq(|ws|, i requires 0 <= i < |ws| => Base(ws, d, m, s0, i)),
           seq(|ws|, i requires 0 <= i < |ws| => Mask(ws, d, m, s0, i)),
           Width(ws, d, m, s0))
  }

  predicate Selects(l: Layout, d: nat, i: nat, a: nat)
    requires i < |l.base| == |l.mask|
  {
    MaskMatch(a, l.base[i], l.mask[i], d)
  }

  /** Slave i answers address a and no other slave does. */
  ghost predicate SelectsOnly(l: Layout, d: nat, i: nat, a: nat)
    requires i < |l.base| == |l.mask|
  {
    Selects(l, d, i, a) && forall j :: 0 <= j < |l.base| && j != i ==> !Selects(l, d, j, a)
  }

  /** The lists for which the decoder is meant to work: a lone slave owns the bus, and
      otherwise every slave spans at least two octets. */
  ghost predicate Decodable(ws: seq<nat>, d: nat, nullsz: nat) {
    (|ws| == 1 && nullsz == 0) || AllPositive(ws, d)
  }

  /** Every octet of every slave's window is on the bus, is decoded to that slave and to
      no other, and its offset is what is left of the address after truncation. */
  lemma Routes(ws: seq<nat>, d: nat, nullsz: nat, busMin: nat, i: nat, off: nat)
    requires d <= 14 && i < |ws| && Decodable(ws, d, nullsz) && off < Pow2(ws[i] + d)
    ensures var l := LayoutOf(ws, d, nullsz, busMin);
      && l.base[i] + off < Pow2(l.width)
      && SelectsOnly(l, d, i, l.base[i] + off)
      && (l.base[i] + off) % Pow2(ws[i] + d) == off
  {
    hide PlacedLayout, ChosenSlot, Pow2, And, Shr;
    if |ws| == 1 && nullsz == 0 {
      ModSmall(off, Pow2(ws[i] + d));
    } else {
      PlacedRoutes(ws, d, ChosenSlot(ws, d, Shr(nullsz, d), busMin), nullsz, i, off);
    }
  }

  lemma PlacedRoutes(ws: seq<nat>, d: nat, m: nat, s0: nat, i: nat, off: nat)
    requires i < |ws| && AllPositive(ws, d) && off < Pow2(ws[i] + d)
    ensures var l := PlacedLayout(ws, d, m, s0);
      && l.base[i] + off < Pow2(l.width)
      && SelectsOnly(l, d, i, l.base[i] + off)
      && (l.base[i] + off) % Pow2(ws[i] + d) == off
  {
    hide PlacedLayout, AlignUp, End, Pow2, NextLg, MaskMatch, Base, Mask;
    var l, p := PlacedLayout(ws, d, m, s0), Slot(ws[i], d, m);
    var b := Base(ws, d, m, s0, i);
    WindowFits(ws, d, m, s0, i);
    Pow2Mono(ws[i] + d, p);
    var a := b + off;
    DecodeExact(ws, d, m, s0, i, a);
    forall j | 0 <= j < |ws| && j != i ensures !Selects(l, d, j, a) {
      DecodeExact(ws, d, m, s0, j, a);
      if i < j { WindowsOrdered(ws, d, m, s0, i, j); }
      else { WindowsOrdered(ws, d, m, s0, j, i); }
    }
    OffsetOf(b, off, ws[i] + d, p);
  }

  lemma OffsetOf(b: nat, off: nat, w: nat, p: nat)
    requires w <= p && b % Pow2(p) == 0 && off < Pow2(w)
    ensures (b + off) % Pow2(w) == off
  {
    MultipleOfPow2(b, w, p);
    assert b == (b / Pow2(w)) * Pow2(w);
    AddMultiple(off, b / Pow2(w), Pow2(w));
    ModSmall(off, Pow2(w));
  }

  /** The NULL region decodes to nothing, and with a second slave or a NULL region every
      mask keeps at least one bit. */
  lemma NullRegionAndMasks(ws: seq<nat>, d: nat, nullsz: nat, busMin: nat, i: nat)
    requires d <= 14 && i < |ws| && AllPositive(ws, d) && (|ws| > 1 || nullsz > 0)
    ensures var l := LayoutOf(ws, d, nullsz, busMin);
      && l.mask[i] > 0
      && forall a :: 0 <= a < nullsz && a < Pow2(l.width) ==> !Selects(l, d, i, a)
  {
    var m := ChosenSlot(ws, d, Shr(nullsz, d), busMin);
    MaskNonZero(ws, d, m, nullsz, i);
    forall a | 0 <= a < nullsz && a < Pow2(Width(ws, d, m, nullsz))
      ensures !MaskMatch(a, Base(ws, d, m, nullsz, i), Mask(ws, d, m, nullsz, i), d)
    {
      WindowFits(ws, d, m, nullsz, i);
      DecodeExact(ws, d, m, nullsz, i, a);
    }
  }

  lemma MaskNonZero(ws: seq<nat>, d: nat, m: nat, s0: nat, i: nat)
    requires i < |ws| && AllPositive(ws, d) && (|ws| > 1 || s0 > 0)
    ensures Mask(ws, d, m, s0, i) > 0
  {
    var p, w := Slot(ws[i], d, m), Width(ws, d, m, s0);
    WindowFits(ws, d, m, s0, i);
    TwoWindows(ws, d, m, s0, i);
    Pow2Mono(p - d, w - d);
  }

  /** No window fills the whole bus. */
  lemma TwoWindows(ws: seq<nat>, d: nat, m: nat, s0: nat, i: nat)
    requires i < |ws| && AllPositive(ws, d) && (|ws| > 1 || s0 > 0)
    ensures End(ws, d, m, s0, |ws|) > Pow2(Slot(ws[i], d, m))
  {
    hide AlignUp, NextLg, End, Base, Slot, Width, Pow2;
    WindowFits(ws, d, m, s0, i);
    if i + 1 < |ws| {
      WindowFits(ws, d, m, s0, i + 1);
      EndMono(ws, d, m, s0, i + 2, |ws|);
      EndMono(ws, d, m, s0, i + 1, i + 1);
    } else if i > 0 {
      WindowFits(ws, d, m, s0, 0);
      WindowsOrdered(ws, d, m, s0, 0, i);
    }
  }

  /** With two or more slaves, mask decoding is exclusive on the whole bus if and only if
      no slave is a single octet.  (A single octet needs an 8-bit bus and NADDR=1, or a
      byte-addressed slave without addresses; its mask is 0 and matches everything.) */
  lemma ExclusiveIff(ws: seq<nat>, d: nat, nullsz: nat, busMin: nat)
    requires d <= 14 && |ws| >= 2
    ensures (forall i, j, a :: 0 <= i < j < |ws| && 0 <= a < Pow2(LayoutOf(ws, d, nullsz, busMin).width) ==>
               !(Selects(LayoutOf(ws, d, nullsz, busMin), d, i, a)
                 && Selects(LayoutOf(ws, d, nullsz, busMin), d, j, a)))
       <==> AllPositive(ws, d)
  {
    var l := LayoutOf(ws, d, nullsz, busMin);
    var m := ChosenSlot(ws, d, Shr(nullsz, d), busMin);
    if AllPositive(ws, d) {
      forall i, j, a | 0 <= i < j < |ws| && 0 <= a < Pow2(l.width)
        ensures !(Selects(l, d, i, a) && Selects(l, d, j, a))
      {
        DecodeExact(ws, d, m, nullsz, i, a);
        DecodeExact(ws, d, m, nullsz, j, a);
        WindowsOrdered(ws, d, m, nullsz, i, j);
      }
    } else {
      var z :| 0 <= z < |ws| && ws[z] + d == 0;
      var o: nat := if z == 0 then 1 else 0;
      // address base_o (or 0) selects both z and o
      var a: nat := if ws[o] + d == 0 then 0 else l.base[o];
      if ws[o] + d > 0 { WindowFits(ws, d, m, nullsz, o); }
      assert Selects(l, d, z, a) && Selects(l, d, o, a);
    }
  }

  /** A lone slave without a NULL region gets a bus of exactly its own size, every address of
      which is its own. */
  lemma LoneBus(ws: seq<nat>, d: nat, busMin: nat, a: nat)
    requires d <= 14 && |ws| == 1
    ensures var l := LayoutOf(ws, d, 0, busMin);
      Pow2(l.width) == Pow2(ws[0]) * Pow2(d) && (a < Pow2(l.width) ==> SelectsOnly(l, d, 0, a))
  {
    hide PlacedLayout, ChosenSlot, Pow2, MaskMatch;
    Pow2Add(ws[0], d);
    BlankMatches(a, d);
  }

  lemma BlankMatches(a: nat, d: nat)
    ensures MaskMatch(a, 0, 0, d)
  {
  }

  /** A bus without slaves has at least as many addresses, of 2^d octets each, as the NULL
      region has octets, and fewer than twice as many. */
  lemma EmptyBus(d: nat, nullsz: nat, busMin: nat)
    requires d <= 14
    ensures var l := LayoutOf([], d, nullsz, busMin);
      if nullsz > 0 then nullsz * Pow2(d) <= Pow2(l.width) < 2 * (nullsz * Pow2(d)) else Pow2(l.width) == Pow2(d)
  {
    hide PlacedLayout, ChosenSlot, Pow2;
    var r := NextLg(nullsz);
    Pow2Add(r, d);
    Pow2Succ(r);
    Sized(Pow2(r), nullsz, Pow2(d));
  }

  lemma Sized(r: nat, n: nat, p: nat)
    requires p > 0
    ensures n <= r ==> n * p <= r * p
    ensures r < 2 * n ==> r * p < 2 * (n * p)
    ensures r == 1 ==> r * p == p
  {
    if n <= r { MulLe(n, r, p); }
    if r < 2 * n { MultipleGap(r, 2 * n, p); }
  }
}
