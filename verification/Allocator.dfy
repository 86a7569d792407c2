/** The placement rule of PLIST::assign_addresses and the arithmetic facts about it.

    A bus hands its slaves, in list order, windows of 2^slot octets aligned to their own
    size.  `ws` holds get_slave_address_width() of each slave in bus units, `d` the number
    of octet bits below a bus unit, `m` the minimum slot width in octet bits and `s0` the
    first address that may be used (the NULL region lies below it). */
module Allocator {
  import opened Bits
  import Options

  /** Octet address bits that slave i decodes, before and after padding to the slot. */
  function Slot(w: nat, d: nat, m: nat): nat {
    if w + d < m then m else w + d
  }

  /** First free address after the first k slaves.  A slave of a single octet does not
      advance the address: the source's own special case. */
  function End(ws: seq<nat>, d: nat, m: nat, s0: nat, k: nat): nat
    requires k <= |ws|
  {
    if k == 0 then s0
    else
      var s := End(ws, d, m, s0, k - 1);
      if ws[k - 1] + d == 0 then s
      else AlignUp(s, Slot(ws[k - 1], d, m)) + Pow2(Slot(ws[k - 1], d, m))
  }

  function Base(ws: seq<nat>, d: nat, m: nat, s0: nat, i: nat): nat
    requires i < |ws|
  {
    if ws[i] + d == 0 then End(ws, d, m, s0, i)
    else AlignUp(End(ws, d, m, s0, i), Slot(ws[i], d, m))
  }

  /** Total size of the first k windows. */
  function Total(ws: seq<nat>, d: nat, m: nat, k: nat): nat
    requires k <= |ws|
  {
    if k == 0 then 0 else Total(ws, d, m, k - 1) + Pow2(Slot(ws[k - 1], d, m))
  }

  ghost predicate AllPositive(ws: seq<nat>, d: nat) {
    forall i :: 0 <= i < |ws| ==> ws[i] + d >= 1
  }

  ghost predicate Ascending(ws: seq<nat>) {
    forall i, j :: 0 <= i <= j < |ws| ==> ws[i] <= ws[j]
  }

  // ----- order and monotonicity -----

  lemma {:induction false} EndMono(ws: seq<nat>, d: nat, m: nat, s0: nat, i: nat, j: nat)
    requires i <= j <= |ws|
    ensures End(ws, d, m, s0, i) <= End(ws, d, m, s0, j)
    decreases j
  {
    if i < j { EndMono(ws, d, m, s0, i, j - 1); }
  }

  /** Enlarging the minimum slot, or the NULL region, never frees address space. */
  lemma {:induction false} EndMonoSlot(ws: seq<nat>, d: nat, m: nat, m': nat, s: nat, s': nat, k: nat)
    requires k <= |ws| && m <= m' && s <= s'
    ensures End(ws, d, m, s, k) <= End(ws, d, m', s', k)
  {
    if k > 0 {
      EndMonoSlot(ws, d, m, m', s, s', k - 1);
      var p, q := Slot(ws[k - 1], d, m), Slot(ws[k - 1], d, m');
      Pow2Mono(p, q);
      AlignUpMono(End(ws, d, m, s, k - 1), End(ws, d, m', s', k - 1), p, q);
    }
  }

  /** The estimator's minimum slot in words: never below two words. */
  function WordSlot(m: nat, d: nat): nat {
    if m < d + 1 then 1 else m - d
  }

  /** The word-scaled estimate never exceeds the octet-scaled placement. */
  lemma {:induction false} EstimateBelow(ws: seq<nat>, d: nat, m: nat, n0: nat, s0: nat, k: nat)
    requires k <= |ws| && Pow2(d) * n0 <= s0
    ensures Pow2(d) * End(ws, 0, WordSlot(m, d), n0, k) <= End(ws, d, m, s0, k)
  {
    if k > 0 {
      EstimateBelow(ws, d, m, n0, s0, k - 1);
      var w, m' := ws[k - 1], WordSlot(m, d);
      if w > 0 {
        ScaledStep(End(ws, 0, m', n0, k - 1), End(ws, d, m, s0, k - 1), Slot(w, 0, m'), d);
      } else {
        EndMono(ws, d, m, s0, k - 1, k);
      }
    }
  }

  /** They agree when no slave is a single word and the NULL region is whole words. */
  lemma {:induction false} EstimateExact(ws: seq<nat>, d: nat, m: nat, n0: nat, s0: nat, k: nat)
    requires k <= |ws| && Pow2(d) * n0 == s0
    requires forall i :: 0 <= i < k ==> ws[i] >= 1
    ensures Pow2(d) * End(ws, 0, WordSlot(m, d), n0, k) == End(ws, d, m, s0, k)
  {
    if k > 0 {
      EstimateExact(ws, d, m, n0, s0, k - 1);
      var m' := WordSlot(m, d);
      ScaledStep(End(ws, 0, m', n0, k - 1), End(ws, d, m, s0, k - 1), Slot(ws[k - 1], 0, m'), d);
    }
  }

  lemma ScaledStep(e: nat, s: nat, p: nat, d: nat)
    requires Pow2(d) * e <= s
    ensures Pow2(d) * (AlignUp(e, p) + Pow2(p)) <= AlignUp(s, p + d) + Pow2(p + d)
    ensures Pow2(d) * e == s ==>
              Pow2(d) * (AlignUp(e, p) + Pow2(p)) == AlignUp(s, p + d) + Pow2(p + d)
  {
    AlignUpScale(e, p, d);
    AlignUpMono(Pow2(d) * e, s, p + d, p + d);
    Pow2Add(d, p);
    Distribute(Pow2(d), AlignUp(e, p), Pow2(p));
  }

  lemma Distribute(a: nat, b: nat, c: nat)
    ensures a * (b + c) == a * b + a * c
  {
  }

  // ----- how much address space a placement uses -----

  /** Placing windows in ascending order of size wastes nothing but one final rounding. */
  lemma {:induction false} AscendingEnd(ws: seq<nat>, d: nat, m: nat, s0: nat, k: nat)
    requires 1 <= k <= |ws| && Ascending(ws) && AllPositive(ws, d)
    ensures End(ws, d, m, s0, k) == AlignUp(s0 + Total(ws, d, m, k), Slot(ws[k - 1], d, m))
  {
    var p := Slot(ws[k - 1], d, m);
    if k == 1 {
      assert Total(ws, d, m, 1) == Total(ws, d, m, 0) + Pow2(p);
      assert End(ws, d, m, s0, 0) == s0;
      AlignUpAdd(s0, p);
    } else {
      AscendingEnd(ws, d, m, s0, k - 1);
      var t := s0 + Total(ws, d, m, k - 1);
      AlignUpIdem(t, Slot(ws[k - 2], d, m), p);
      AlignUpAdd(t, p);
    }
  }

  /** In any order at all, alignment less than doubles the space used. */
  lemma {:induction false} EndBelowTwice(ws: seq<nat>, d: nat, m: nat, s0: nat, k: nat)
    requires k <= |ws|
    ensures End(ws, d, m, s0, k) <= 2 * (s0 + Total(ws, d, m, k))
    ensures k > 0 ==> End(ws, d, m, s0, k) < 2 * (s0 + Total(ws, d, m, k))
  {
    if k > 0 { EndBelowTwice(ws, d, m, s0, k - 1); }
  }

  lemma {:induction false} TotalAtLeast(ws: seq<nat>, d: nat, m: nat, i: nat, k: nat)
    requires i < k <= |ws|
    ensures Pow2(Slot(ws[i], d, m)) <= Total(ws, d, m, k)
    decreases k
  {
    if i < k - 1 { TotalAtLeast(ws, d, m, i, k - 1); }
  }

  /** Ascending placement needs exactly as many address bits as the bare sum of sizes. */
  lemma AscendingWidth(ws: seq<nat>, d: nat, m: nat, s0: nat)
    requires |ws| >= 1 && Ascending(ws) && AllPositive(ws, d)
    ensures NextLg(End(ws, d, m, s0, |ws|)) == NextLg(s0 + Total(ws, d, m, |ws|))
  {
    hide End, Total, AlignUp, NextLg, Pow2, Slot, Ascending, AllPositive;
    var k := |ws|;
    var t, p := s0 + Total(ws, d, m, k), Slot(ws[k - 1], d, m);
    AscendingEnd(ws, d, m, s0, k);
    NextLgMono(t, AlignUp(t, p));
    TotalAtLeast(ws, d, m, k - 1, k);
    var r := NextLg(t);
    if r < p { Pow2Mono(r, p); }
    Pow2Divides(p, r);
    AlignUpLeast(t, p, Pow2(r));
    NextLgLeast(AlignUp(t, p), r);
  }

  /** In any order the placement costs at most one address bit more. */
  lemma AnyOrderWidth(ws: seq<nat>, d: nat, m: nat, s0: nat)
    requires |ws| >= 1
    ensures NextLg(End(ws, d, m, s0, |ws|)) <= NextLg(s0 + Total(ws, d, m, |ws|)) + 1
  {
    var t := s0 + Total(ws, d, m, |ws|);
    EndBelowTwice(ws, d, m, s0, |ws|);
    NextLgLeast(End(ws, d, m, s0, |ws|), NextLg(t) + 1);
  }

  // ----- lists of equal slaves -----

  function Repeat(w: nat, n: nat): (s: seq<nat>)
    ensures |s| == n && forall i :: 0 <= i < n ==> s[i] == w
  {
    if n == 0 then [] else Repeat(w, n - 1) + [w]
  }

  lemma NextMultiple(k: nat, m: nat)
    requires k > 0
    ensures (k - 1) * m + m == k * m
  {
  }

  /** Windows of equal slots starting at zero sit back to back. */
  lemma {:induction false} EqualSlots(ws: seq<nat>, d: nat, m: nat, p: nat, k: nat)
    requires k <= |ws| && forall i :: 0 <= i < k ==> ws[i] + d >= 1 && Slot(ws[i], d, m) == p
    ensures End(ws, d, m, 0, k) == k * Pow2(p)
  {
    if k > 0 {
      EqualSlots(ws, d, m, p, k - 1);
      MulMod(k - 1, Pow2(p));
      AlignUpFixed((k - 1) * Pow2(p), p);
      NextMultiple(k, Pow2(p));
    }
  }

  // ----- the reference: any disjoint placement whatever -----

  /** Some assignment of base addresses, aligned or not, that keeps every slave's octets
      above the NULL region, below `limit`, and apart from every other slave's. */
  ghost predicate DisjointPlacement(bs: seq<nat>, sizes: seq<nat>, s0: nat, limit: nat) {
    && |bs| == |sizes| && s0 <= limit
    && (forall i :: 0 <= i < |bs| ==> s0 <= bs[i] && bs[i] + sizes[i] <= limit)
    && (forall i, j :: 0 <= i < j < |bs| ==> bs[i] + sizes[i] <= bs[j] || bs[j] + sizes[j] <= bs[i])
  }

  function Sizes(ws: seq<nat>, d: nat): (r: seq<nat>)
    ensures |r| == |ws|
  {
    seq(|ws|, i requires 0 <= i < |ws| => Pow2(ws[i] + d))
  }

  predicate InWindow(x: int, b: nat, len: nat) {
    b <= x < b + len
  }

  ghost function Window(b: nat, len: nat): set<int> {
    set x | b <= x < b + len && InWindow(x, b, len)
  }

  lemma {:induction false} WindowSize(b: nat, len: nat)
    ensures |Window(b, len)| == len
  {
    if len == 0 {
      assert Window(b, 0) == {};
    } else {
      WindowSize(b, len - 1);
      assert Window(b, len) == Window(b, len - 1) + {b + len - 1};
    }
  }

  ghost function Covered(bs: seq<nat>, sizes: seq<nat>, k: nat): set<int>
    requires k <= |bs| == |sizes|
  {
    if k == 0 then {} else Covered(bs, sizes, k - 1) + Window(bs[k - 1], sizes[k - 1])
  }

  lemma {:induction false} CoveredMembers(bs: seq<nat>, sizes: seq<nat>, k: nat, x: int)
    requires k <= |bs| == |sizes| && x in Covered(bs, sizes, k)
    ensures exists i :: 0 <= i < k && bs[i] <= x < bs[i] + sizes[i]
  {
    if x in Window(bs[k - 1], sizes[k - 1]) {
    } else {
      CoveredMembers(bs, sizes, k - 1, x);
    }
  }

  function Sum(sizes: seq<nat>, k: nat): nat
    requires k <= |sizes|
  {
    if k == 0 then 0 else Sum(sizes, k - 1) + sizes[k - 1]
  }

  lemma CoveredDisjoint(bs: seq<nat>, sizes: seq<nat>, s0: nat, limit: nat, k: nat)
    requires DisjointPlacement(bs, sizes, s0, limit) && 0 < k <= |bs|
    ensures Covered(bs, sizes, k - 1) !! Window(bs[k - 1], sizes[k - 1])
  {
    var a, b := Covered(bs, sizes, k - 1), Window(bs[k - 1], sizes[k - 1]);
    forall x | x in a ensures x !in b {
      CoveredMembers(bs, sizes, k - 1, x);
    }
  }

  lemma {:induction false} CoveredSize(bs: seq<nat>, sizes: seq<nat>, s0: nat, limit: nat, k: nat)
    requires DisjointPlacement(bs, sizes, s0, limit) && k <= |bs|
    ensures |Covered(bs, sizes, k)| == Sum(sizes, k)
  {
    if k > 0 {
      CoveredSize(bs, sizes, s0, limit, k - 1);
      CoveredDisjoint(bs, sizes, s0, limit, k);
      WindowSize(bs[k - 1], sizes[k - 1]);
      DisjointSize(Covered(bs, sizes, k - 1), Window(bs[k - 1], sizes[k - 1]));
    }
  }

  lemma DisjointSize(a: set<int>, b: set<int>)
    requires a !! b
    ensures |a + b| == |a| + |b|
  {
  }

  lemma {:induction false} SumOfSizes(ws: seq<nat>, d: nat, k: nat)
    requires k <= |ws|
    ensures Sum(Sizes(ws, d), k) == Total(ws, d, 0, k)
  {
    if k > 0 { SumOfSizes(ws, d, k - 1); }
  }

  /** No disjoint placement fits in less than NULLSZ plus the sum of the sizes. */
  lemma PackingBound(bs: seq<nat>, sizes: seq<nat>, s0: nat, limit: nat)
    requires DisjointPlacement(bs, sizes, s0, limit)
    ensures s0 + Sum(sizes, |sizes|) <= limit
  {
    CoveredSize(bs, sizes, s0, limit, |bs|);
    var all, room := Covered(bs, sizes, |bs|), Window(s0, limit - s0);
    WindowSize(s0, limit - s0);
    forall x | x in all ensures x in room {
      CoveredMembers(bs, sizes, |bs|, x);
    }
    Options.SubsetSize(all, room);
  }

  /** The unpadded ascending placement is optimal: it uses exactly the least number of
      address bits any disjoint placement above the NULL region can use. */
  lemma AscendingIsOptimal(ws: seq<nat>, d: nat, m: nat, s0: nat, bs: seq<nat>, limit: nat)
    requires |ws| >= 1 && Ascending(ws) && AllPositive(ws, d)
    requires forall i :: 0 <= i < |ws| ==> m <= ws[i] + d
    requires DisjointPlacement(bs, Sizes(ws, d), s0, limit)
    ensures NextLg(End(ws, d, m, s0, |ws|)) <= NextLg(limit)
  {
    hide End, Total, AlignUp, NextLg, Slot, Pow2, Ascending, AllPositive, DisjointPlacement, Sizes, Sum;
    AscendingWidth(ws, d, m, s0);
    TotalUnpadded(ws, d, m, |ws|);
    PackingBound(bs, Sizes(ws, d), s0, limit);
    SumOfSizes(ws, d, |ws|);
    NextLgMono(s0 + Total(ws, d, 0, |ws|), limit);
  }

  /** Any other order of the slaves costs at most one address bit more than the optimum. */
  lemma AnyOrderNearOptimal(ws: seq<nat>, d: nat, m: nat, s0: nat, bs: seq<nat>, limit: nat)
    requires |ws| >= 1
    requires forall i :: 0 <= i < |ws| ==> m <= ws[i] + d
    requires DisjointPlacement(bs, Sizes(ws, d), s0, limit)
    ensures NextLg(End(ws, d, m, s0, |ws|)) <= NextLg(limit) + 1
  {
    hide End, Total, AlignUp, NextLg, Slot, Pow2, DisjointPlacement, Sizes, Sum;
    AnyOrderWidth(ws, d, m, s0);
    TotalUnpadded(ws, d, m, |ws|);
    PackingBound(bs, Sizes(ws, d), s0, limit);
    SumOfSizes(ws, d, |ws|);
    NextLgMono(s0 + Total(ws, d, 0, |ws|), limit);
  }

  lemma {:induction false} TotalUnpadded(ws: seq<nat>, d: nat, m: nat, k: nat)
    requires k <= |ws| && forall i :: 0 <= i < k ==> m <= ws[i] + d
    ensures Total(ws, d, m, k) == Total(ws, d, 0, k)
  {
    if k > 0 { TotalUnpadded(ws, d, m, k - 1); }
  }
}
