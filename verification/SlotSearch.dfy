/** The search of PLIST::assign_addresses for the minimum slot width, on the 32-bit
    estimator it uses, and the proof of what it finds. */
module SlotSearch {
  import opened Bits
  import opened Allocator

  // ----- the estimator, in the source's 32-bit unsigned arithmetic -----

  /** min_addr_size_bytes' running start address after k slaves, wrapping at 2^32.
      Slaves of address width 0 are skipped. */
  function End32(ws: seq<nat>, m: nat, s0: nat, k: nat): nat
    requires k <= |ws|
  {
    if k == 0 then s0 % TWO32
    else
      var s := End32(ws, m, s0, k - 1);
      if ws[k - 1] == 0 then s else Step32(s, Slot(ws[k - 1], 0, m))
  }

  /** Align s up to 2^p and step over the window, every operation modulo 2^32. */
  function Step32(s: nat, p: nat): nat {
    var x := (s + Pow2(p) - 1) % TWO32;
    (x - x % Pow2(p) + Pow2(p)) % TWO32
  }

  lemma StepNoWrap(s: nat, p: nat)
    requires AlignUp(s, p) + Pow2(p) < TWO32
    ensures Step32(s, p) == AlignUp(s, p) + Pow2(p)
  {
    ModSmall(s + Pow2(p) - 1, TWO32);
    ModSmall(AlignUp(s, p) + Pow2(p), TWO32);
  }

  /** min_addr_size_octets, with the NULL region given as its n whole words. */
  function Estimate32(ws: seq<nat>, d: nat, m: nat, n: nat): nat {
    NextLg(End32(ws, WordSlot(m, d), n, |ws|)) + d
  }

  /** The same estimate without wrap-around. */
  function Estimate(ws: seq<nat>, d: nat, m: nat, n: nat): nat {
    NextLg(End(ws, 0, WordSlot(m, d), n, |ws|)) + d
  }

  ghost predicate Narrow(ws: seq<nat>) {
    forall i :: 0 <= i < |ws| ==> ws[i] < 32
  }

  /** As long as the true total stays below 2^32, no step wraps. */
  lemma {:induction false} NoWrap(ws: seq<nat>, m: nat, s0: nat, k: nat)
    requires k <= |ws| && End(ws, 0, m, s0, k) < TWO32
    ensures End32(ws, m, s0, k) == End(ws, 0, m, s0, k)
  {
    if k > 0 {
      EndMono(ws, 0, m, s0, k - 1, k);
      NoWrap(ws, m, s0, k - 1);
      if ws[k - 1] > 0 {
        StepNoWrap(End(ws, 0, m, s0, k - 1), Slot(ws[k - 1], 0, m));
      }
    }
  }

  method AdvanceStart(start: nat, pa: nat) returns (next: nat)
    requires pa < 32
    ensures next == Step32(start, pa) && next < TWO32
  {
    var x := (start + Pow2(pa) - 1) % TWO32;
    Trim32(x, pa);
    var base := And(x, TWO32 - Pow2(pa));
    next := (base + Pow2(pa)) % TWO32;
  }

  method MinAddrSizeBytes(ws: seq<nat>, m: nat, n: nat) returns (r: nat)
    requires Narrow(ws) && m < 32 && n < TWO32
    ensures r == NextLg(End32(ws, m, n, |ws|))
  {
    var start: nat := n;
    for i := 0 to |ws|
      invariant start == End32(ws, m, n, i) && start < TWO32
    {
      var pa := ws[i];
      if pa <= 0 { continue; }
      if pa < m { pa := m; }
      assert pa == Slot(ws[i], 0, m);
      start := AdvanceStart(start, pa);
    }
    Below32(start);
    r := ComputeNextLg(start);
  }

  /** x & (-1<<pa), in 32 bits, clears the low pa bits. */
  lemma Trim32(x: nat, pa: nat)
    requires x < TWO32 && pa < 32
    ensures Pow2(pa) <= TWO32 && And(x, TWO32 - Pow2(pa)) == x - x % Pow2(pa)
  {
    Pow32();
    AndMask(x, pa, 32);
    ModSmall(x, Pow2(32));
  }

  lemma Pow32()
    ensures Pow2(32) == TWO32 && Pow2(31) == TWO32 / 2
  {
    assert Pow2(8) == 256;
    assert Pow2(16) == 65536;
    assert Pow2(24) == 0x100_0000;
    assert Pow2(28) == 0x1000_0000;
  }

  lemma Below32(x: nat)
    requires x < TWO32
    ensures x <= Pow2(63) && NextLg(x) <= 32
  {
    Pow32();
    Pow2Mono(32, 63);
    NextLgLeast(x, 32);
  }

  method MinAddrSizeOctets(ws: seq<nat>, d: nat, m: nat, nullsz: nat) returns (r: nat)
    requires Narrow(ws) && m < 32 + d && nullsz < TWO32 && d <= m
    ensures r == Estimate32(ws, d, m, Shr(nullsz, d))
  {
    var mna := m - d;
    if mna < 1 { mna := 1; }
    ShrinkNull(nullsz, d);
    mna := MinAddrSizeBytes(ws, mna, Shr(nullsz, d));
    r := mna + d;
  }

  lemma ShrinkNull(nullsz: nat, d: nat)
    requires nullsz < TWO32
    ensures Shr(nullsz, d) < TWO32
  {
  }

  // ----- the search loop -----

  /** min_awd, min_asz and min_relevant. */
  datatype Best = Best(slot: nat, total: nat, relevant: nat)

  /** One loop iteration that does not break. */
  function Consider(b: Best, m: nat, total: nat): Best
    requires m <= total
  {
    if total <= b.total && total - m < b.relevant then Best(m, total, total - m) else b
  }

  function SearchFrom(ws: seq<nat>, d: nat, n: nat, m: nat, b: Best): Best
    requires d <= 14
    decreases 32 - m
  {
    if m >= 32 - d then b
    else
      var total := Estimate32(ws, d, m, n);
      if total < m then b
      else SearchFrom(ws, d, n, m + 1, Consider(b, m, total))
  }

  /** The starting point: slots as wide as the last slave in the list. */
  function Initial(ws: seq<nat>, d: nat, n: nat, busMin: nat): Best
    requires |ws| > 0 && d <= 14
  {
    var awd := ws[|ws| - 1] + d;
    var asz := Estimate32(ws, d, awd, n);
    Best(awd, if asz < busMin then busMin else asz, 32 - d)
  }

  function ChosenSlot(ws: seq<nat>, d: nat, n: nat, busMin: nat): nat
    requires |ws| > 0 && d <= 14
  {
    SearchFrom(ws, d, n, d + 1, Initial(ws, d, n, busMin)).slot
  }

  method Search(ws: seq<nat>, d: nat, nullsz: nat, busMin: nat) returns (slot: nat)
    requires |ws| > 0 && d <= 14 && Narrow(ws) && nullsz < TWO32
    ensures slot == ChosenSlot(ws, d, Shr(nullsz, d), busMin)
  {
    hide Estimate32, Pow2;
    ghost var n := Shr(nullsz, d);
    ghost var goal := ChosenSlot(ws, d, n, busMin);
    slot := ws[|ws| - 1] + d;
    var asz: nat := MinAddrSizeOctets(ws, d, slot, nullsz);
    if asz < busMin { asz := busMin; }
    var relevant: nat := 32 - d;
    var mina := d + 1;
    while mina < 32 - d
      invariant d + 1 <= mina <= 32 - d
      invariant SearchFrom(ws, d, n, mina, Best(slot, asz, relevant)).slot == goal
    {
      var total := MinAddrSizeOctets(ws, d, mina, nullsz);
      if total < mina { break; }
      ghost var next := Consider(Best(slot, asz, relevant), mina, total);
      var bits := total - mina;
      if total > asz {
      } else if bits < relevant {
        asz, relevant, slot := total, bits, mina;
      }
      assert next == Best(slot, asz, relevant);
      mina := mina + 1;
    }
  }

  // ----- what the search finds -----

  lemma EstimateMono(ws: seq<nat>, d: nat, m: nat, m': nat, n: nat)
    requires m <= m'
    ensures Estimate(ws, d, m, n) <= Estimate(ws, d, m', n)
  {
    EndMonoSlot(ws, 0, WordSlot(m, d), WordSlot(m', d), n, n, |ws|);
    NextLgMono(End(ws, 0, WordSlot(m, d), n, |ws|), End(ws, 0, WordSlot(m', d), n, |ws|));
  }

  /** The narrowest total width any slot can give. */
  function LeastTotal(ws: seq<nat>, d: nat, n: nat): nat {
    Estimate(ws, d, d + 1, n)
  }

  /** The widest slot whose sum decides anything: the starting slot, or the last one the loop
      tries that is no wider than the bus itself. */
  function WidestTried(ws: seq<nat>, d: nat, n: nat): nat
    requires |ws| > 0 && d <= 14
  {
    var first, total := ws[|ws| - 1] + d, LeastTotal(ws, d, n);
    var last := if total < 31 - d then total else 31 - d;
    if first < last then last else first
  }

  /** The bus fits 32 octet address bits, and the estimator's sum of windows stays below
      2^32 up to the widest slot that decides anything. */
  ghost predicate SumsFit(ws: seq<nat>, d: nat, n: nat) {
    && |ws| > 0 && d <= 14 && LeastTotal(ws, d, n) <= 32
    && End(ws, 0, WordSlot(WidestTried(ws, d, n), d), n, |ws|) < TWO32
  }

  /** Some slave has at least one address bit. */
  ghost predicate SomeWide(ws: seq<nat>) {
    exists i :: 0 <= i < |ws| && ws[i] >= 1
  }

  lemma FitsSlot(ws: seq<nat>, m: nat, m': nat, n: nat)
    requires m <= m' && End(ws, 0, m', n, |ws|) < TWO32
    ensures End32(ws, m, n, |ws|) == End(ws, 0, m, n, |ws|)
  {
    EndMonoSlot(ws, 0, m, m', n, n, |ws|);
    NoWrap(ws, m, n, |ws|);
  }

  lemma Fits(ws: seq<nat>, d: nat, n: nat, m: nat)
    requires SumsFit(ws, d, n) && m <= WidestTried(ws, d, n)
    ensures Estimate32(ws, d, m, n) == Estimate(ws, d, m, n)
  {
    FitsSlot(ws, WordSlot(m, d), WordSlot(WidestTried(ws, d, n), d), n);
  }

  /** A bus is at least as wide as any slot on it. */
  lemma {:induction false} WideSlot(ws: seq<nat>, d: nat, m: nat, n: nat, i: nat)
    requires i < |ws| && ws[i] >= 1
    ensures Estimate(ws, d, m, n) >= WordSlot(m, d) + d
    ensures Estimate(ws, d, m, n) >= ws[i] + d
  {
    var m' := WordSlot(m, d);
    var e, p := End(ws, 0, m', n, |ws|), Slot(ws[i], 0, m');
    EndMono(ws, 0, m', n, i + 1, |ws|);
    assert End(ws, 0, m', n, i + 1) >= Pow2(p);
    NextLgMono(Pow2(p), e);
    NextLgPow2(p);
  }

  /** `b` is the best slot among those in [d+1, m): least total width first, and among
      those the widest slot, that is the fewest decoded address bits. */
  ghost predicate BestBelow(ws: seq<nat>, d: nat, n: nat, m: nat, b: Best) {
    && d + 1 <= b.slot < m
    && b.total == LeastTotal(ws, d, n) == Estimate(ws, d, b.slot, n)
    && b.slot <= b.total && b.relevant == b.total - b.slot
    && (forall k :: b.slot < k < m ==> Estimate(ws, d, k, n) > b.total)
  }

  /** Once a slot is wider than the best total, every later candidate is skipped or ends
      the loop, whatever its 32-bit estimate may have wrapped to. */
  lemma {:induction false} SearchKeepsBest(ws: seq<nat>, d: nat, n: nat, m: nat, b: Best)
    requires d <= 14 && SumsFit(ws, d, n) && SomeWide(ws)
    requires d + 2 <= m <= 32 - d && BestBelow(ws, d, n, m, b)
    ensures BestBelow(ws, d, n, 32 - d, SearchFrom(ws, d, n, m, b))
    decreases 32 - m
  {
    hide NextLg, Pow2, AlignUp, Estimate, Estimate32, SumsFit;
    if m < 32 - d {
      var i :| 0 <= i < |ws| && ws[i] >= 1;
      var t := Estimate32(ws, d, m, n);
      EstimateMono(ws, d, d + 1, m, n);
      WideSlot(ws, d, m, n, i);
      if m <= b.total {
        Fits(ws, d, n, m);
      }
      if t < m {
        forall k | m <= k < 32 - d ensures Estimate(ws, d, k, n) > b.total {
          WideSlot(ws, d, k, n, i);
        }
      } else {
        SearchKeepsBest(ws, d, n, m + 1, Consider(b, m, t));
      }
    }
  }

  /** Lexicographic optimality of the search over its whole range: the slot it settles on
      gives the least total address width of all slots in [d+1, 32-d), and every wider
      slot would cost at least one more address bit.  The bus's minimum address width does
      not matter: the first candidate already overrides it. */
  lemma SearchIsOptimal(ws: seq<nat>, d: nat, n: nat, busMin: nat)
    requires d <= 14 && SumsFit(ws, d, n) && SomeWide(ws)
    ensures var s := ChosenSlot(ws, d, n, busMin);
      && d + 1 <= s < 32 - d && s <= LeastTotal(ws, d, n)
      && (forall k :: d + 1 <= k < 32 - d ==>
            Estimate(ws, d, s, n) <= Estimate(ws, d, k, n))
      && (forall k :: s < k < 32 - d ==>
            Estimate(ws, d, s, n) < Estimate(ws, d, k, n))
      && Estimate(ws, d, s, n) == LeastTotal(ws, d, n)
  {
    hide NextLg, Pow2, AlignUp, Estimate, Estimate32;
    var t := LeastTotal(ws, d, n);
    InitialIsNoBetter(ws, d, n, busMin);
    var i :| 0 <= i < |ws| && ws[i] >= 1;
    WideSlot(ws, d, d + 1, n, i);
    Fits(ws, d, n, d + 1);
    SearchKeepsBest(ws, d, n, d + 2, Best(d + 1, t, t - (d + 1)));
    forall k | d + 1 <= k < 32 - d ensures t <= Estimate(ws, d, k, n) {
      EstimateMono(ws, d, d + 1, k, n);
    }
  }

  lemma InitialIsNoBetter(ws: seq<nat>, d: nat, n: nat, busMin: nat)
    requires d <= 14 && SumsFit(ws, d, n) && SomeWide(ws)
    ensures Initial(ws, d, n, busMin).total >= LeastTotal(ws, d, n)
  {
    var last := ws[|ws| - 1];
    if last >= 1 {
      WideSlot(ws, d, d + 1, n, |ws| - 1);
      EstimateMono(ws, d, d + 1, last + d, n);
    }
    Fits(ws, d, n, last + d);
  }
}
