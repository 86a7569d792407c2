/** PLIST and PERIPH: the in-place address assignment, proved against AddressMap. */
module Plist {
  import opened Options
  import opened Bits
  import opened Allocator
  import opened SlotSearch
  import opened AddressMap
  import AddressWidth

  // ----- the order in which slaves are placed -----

  predicate NameLess(a: string, b: string) {
    if b == "" then false
    else if a == "" then true
    else a[0] < b[0] || (a[0] == b[0] && NameLess(a[1..], b[1..]))
  }

  /** compare_naddr on what it looks at: SLAVE.ORDER, address width and name, if there is one. */
  datatype Key = Key(order: Option<int>, width: nat, name: Option<string>)

  predicate Before(a: Key, b: Key) {
    if a.order.Some? then b.order.Some? && a.order.value < b.order.value
    else if b.order.Some? then true
    else if a.width != b.width then a.width < b.width
    else if a.name.Some? && b.name.Some? then NameLess(a.name.value, b.name.value)
    else true
  }

  lemma {:induction false} NameLessOrder(a: string, b: string, c: string)
    ensures !NameLess(a, a)
    ensures NameLess(a, b) && NameLess(b, c) ==> NameLess(a, c)
    ensures !NameLess(a, b) && !NameLess(b, c) ==> !NameLess(a, c)
    decreases |a| + |b| + |c|
  {
    if a != "" && b != "" && c != "" {
      NameLessOrder(a[1..], b[1..], c[1..]);
    } else if a != "" {
      NameLessOrder(a[1..], "", "");
    }
  }

  /** The slave has an order or a name to be told apart by. */
  predicate Comparable(a: Key) {
    a.order.Some? || a.name.Some?
  }

  /** compare_naddr is a strict weak order, which is what sorting by it needs, on exactly the
      slaves with an order or a name: any other comes before itself. */
  lemma BeforeIsStrictWeakOrder(a: Key, b: Key, c: Key)
    ensures !Before(a, a) <==> Comparable(a)
    ensures Comparable(a) && Comparable(b) && Comparable(c) ==>
      && (Before(a, b) && Before(b, c) ==> Before(a, c))
      && (!Before(a, b) && !Before(b, c) ==> !Before(a, c))
  {
    var empty := "";
    var x := if a.name.Some? then a.name.value else empty;
    NameLessOrder(x, if b.name.Some? then b.name.value else empty, if c.name.Some? then c.name.value else empty);
  }

  ghost predicate SortedKeys(ks: seq<Key>) {
    forall i, j :: 0 <= i < j < |ks| ==> !Before(ks[j], ks[i])
  }

  class Periph {
    const name: Option<string>
    const order: Option<int>
    const width: nat    // get_slave_address_width()
    var base: nat       // p_base, in octets
    var mask: nat       // p_mask, in bus units

    constructor (name: Option<string>, order: Option<int>, width: nat)
      ensures this.name == name && this.order == order && this.width == width
      ensures base == 0 && mask == 0
    {
      this.name, this.order, this.width := name, order, width;
      base, mask := 0, 0;
    }

    function GetKey(): Key { Key(order, width, name) }
  }

  function Keys(ps: seq<Periph>): (r: seq<Key>)
    ensures |r| == |ps| && forall i :: 0 <= i < |ps| ==> r[i] == ps[i].GetKey()
  {
    seq(|ps|, i requires 0 <= i < |ps| => ps[i].GetKey())
  }

  function Widths(ps: seq<Periph>): (r: seq<nat>)
    ensures |r| == |ps| && forall i :: 0 <= i < |ps| ==> r[i] == ps[i].width
  {
    seq(|ps|, i requires 0 <= i < |ps| => ps[i].width)
  }

  ghost predicate Distinct(ps: seq<Periph>) {
    forall i, j :: 0 <= i < j < |ps| ==> ps[i] != ps[j]
  }

  // ----- sorting -----

  /** Index of the first slave that e must come before. */
  function Position(s: seq<Periph>, e: Periph): (j: nat)
    ensures j <= |s| && forall i :: 0 <= i < j ==> !Before(e.GetKey(), s[i].GetKey())
    ensures j < |s| ==> Before(e.GetKey(), s[j].GetKey())
  {
    if s == [] || Before(e.GetKey(), s[0].GetKey()) then 0 else 1 + Position(s[1..], e)
  }

  function Insert(s: seq<Periph>, e: Periph): seq<Periph> {
    s[..Position(s, e)] + [e] + s[Position(s, e)..]
  }

  /** The sorted list; slaves that compare equal keep their order. */
  function SortList(s: seq<Periph>): seq<Periph> {
    if s == [] then [] else Insert(SortList(s[..|s| - 1]), s[|s| - 1])
  }

  ghost predicate AllComparable(s: seq<Periph>) {
    forall i :: 0 <= i < |s| ==> Comparable(s[i].GetKey())
  }

  lemma InsertSorted(s: seq<Periph>, e: Periph, j: nat)
    requires j <= |s| && SortedKeys(Keys(s)) && AllComparable(s) && Comparable(e.GetKey())
    requires forall i :: 0 <= i < j ==> !Before(e.GetKey(), s[i].GetKey())
    requires j < |s| ==> Before(e.GetKey(), s[j].GetKey())
    ensures SortedKeys(Keys(s[..j] + [e] + s[j..]))
  {
    var t := s[..j] + [e] + s[j..];
    forall a, b | 0 <= a < b < |t| ensures !Before(Keys(t)[b], Keys(t)[a]) {
      var a', b' := if a <= j then a else a - 1, if b <= j then b else b - 1;
      if a == j {
        // an element behind e: it is not before s[j], which e is before
        BeforeIsStrictWeakOrder(s[b'].GetKey(), e.GetKey(), s[j].GetKey());
        if b' > j { assert !Before(Keys(s)[b'], Keys(s)[j]); }
        else { BeforeIsStrictWeakOrder(s[j].GetKey(), e.GetKey(), s[j].GetKey()); }
      } else if b != j {
        assert !Before(Keys(s)[b'], Keys(s)[a']);
      }
    }
  }

  lemma SortOne(s: seq<Periph>)
    requires |s| == 1
    ensures SortList(s) == s
  {
    assert s[..0] == [];
    assert SortList(s[..0]) == [];
  }

  lemma InsertContents(t: seq<Periph>, e: Periph)
    ensures multiset(Insert(t, e)) == multiset(t) + multiset{e}
    ensures |Insert(t, e)| == |t| + 1
    ensures Distinct(t) && e !in t ==> Distinct(Insert(t, e))
  {
    hide Position;
    var j := Position(t, e);
    assert t == t[..j] + t[j..];
  }

  lemma InsertMembers(t: seq<Periph>, e: Periph)
    ensures forall p :: p in Insert(t, e) <==> p == e || p in t
  {
  }

  /** Sorting permutes the slaves and leaves none before an earlier one. */
  lemma {:induction false} SortListFacts(s: seq<Periph>)
    ensures multiset(SortList(s)) == multiset(s)
    ensures AllComparable(s) ==> SortedKeys(Keys(SortList(s)))
  {
    hide Before, Position, SortedKeys, Comparable;
    if s == [] {
      NoKeysSorted(SortList(s));
    } else {
      var init, e := s[..|s| - 1], s[|s| - 1];
      assert s == init + [e];
      SortListFacts(init);
      InsertContents(SortList(init), e);
      if AllComparable(s) {
        SortedComparable(init);
        InsertSorted(SortList(init), e, Position(SortList(init), e));
      }
    }
  }

  lemma SortedComparable(s: seq<Periph>)
    requires AllComparable(s) && multiset(SortList(s)) == multiset(s)
    ensures AllComparable(SortList(s))
  {
    hide SortList, Comparable;
    forall i | 0 <= i < |SortList(s)| ensures Comparable(SortList(s)[i].GetKey()) {
      assert SortList(s)[i] in multiset(SortList(s));
    }
  }

  ghost predicate Unordered(s: seq<Periph>) {
    forall i :: 0 <= i < |s| ==> s[i].order.None?
  }

  lemma InsertAscends(s: seq<Periph>, e: Periph)
    requires Unordered(s) && e.order.None? && Ascending(Widths(s))
    ensures Unordered(Insert(s, e)) && Ascending(Widths(Insert(s, e)))
  {
    hide NameLess;
    var j, w := Position(s, e), Widths(s);
    forall i | j <= i < |s| ensures e.width <= w[i] { assert w[j] <= w[i]; }
    forall i | 0 <= i < j ensures w[i] <= e.width { assert !Before(e.GetKey(), s[i].GetKey()); }
  }

  /** Without any SLAVE.ORDER, named or not, the sorted slaves have ascending widths. */
  lemma {:induction false} SortAscends(s: seq<Periph>)
    requires Unordered(s)
    ensures Unordered(SortList(s)) && Ascending(Widths(SortList(s)))
  {
    hide Insert;
    if s != [] {
      SortAscends(s[..|s| - 1]);
      InsertAscends(SortList(s[..|s| - 1]), s[|s| - 1]);
    }
  }

  /** Name a comes strictly before b: a is cut short, or the first character that differs is
      smaller. */
  ghost predicate Alphabetical(a: string, b: string) {
    exists k: nat :: k <= |a| && FirstDifference(a, b, k)
  }

  predicate FirstDifference(a: string, b: string, k: nat)
    requires k <= |a|
  {
    k < |b| && a[..k] == b[..k] && (k == |a| || a[k] < b[k])
  }

  /** Two different names are in alphabetical order one way round. */
  lemma {:induction false} NamesCompare(a: string, b: string)
    ensures NameLess(a, b) <==> Alphabetical(a, b)
    ensures a == b || NameLess(a, b) || NameLess(b, a)
  {
    if a == "" || b == "" || a[0] != b[0] {
      if NameLess(a, b) { assert FirstDifference(a, b, 0); }
      assert forall k :: 0 < k <= |a| && k <= |b| && a[..k] == b[..k] ==> a[..k][0] == a[0] && b[..k][0] == b[0];
    } else {
      NamesCompare(a[1..], b[1..]);
      assert a == [a[0]] + a[1..] && b == [b[0]] + b[1..];
      if k: nat :| k <= |a[1..]| && FirstDifference(a[1..], b[1..], k) {
        assert a[..k + 1] == [a[0]] + a[1..][..k] && b[..k + 1] == [b[0]] + b[1..][..k];
        assert FirstDifference(a, b, k + 1);
      }
      if k: nat :| k <= |a| && FirstDifference(a, b, k) {
        assert k > 0;
        assert a[1..][..k - 1] == a[..k][1..] && b[1..][..k - 1] == b[..k][1..];
        assert FirstDifference(a[1..], b[1..], k - 1);
      }
    }
  }

  /** What the sorted list looks like: slaves without SLAVE.ORDER first, by address width and
      then by name; then the others by SLAVE.ORDER. */
  lemma SortedSlaves(ps: seq<Periph>, i: nat, j: nat)
    requires AllComparable(ps) && i < j < |SortList(ps)|
    ensures var a, b := SortList(ps)[i], SortList(ps)[j];
      && (a.order.Some? ==> b.order.Some? && a.order.value <= b.order.value)
      && (a.order.None? && b.order.None? ==> a.width <= b.width)
      && (a.order.None? && b.order.None? && a.width == b.width && a.name.Some? && b.name.Some? ==>
            a.name == b.name || Alphabetical(a.name.value, b.name.value))
  {
    hide SortList, NameLess, Alphabetical;
    SortListFacts(ps);
    var a, b := SortList(ps)[i], SortList(ps)[j];
    assert !Before(Keys(SortList(ps))[j], Keys(SortList(ps))[i]);
    if a.name.Some? && b.name.Some? { NamesCompare(a.name.value, b.name.value); }
  }

  lemma NoKeysSorted(s: seq<Periph>)
    requires s == []
    ensures SortedKeys(Keys(s))
  {
  }

  lemma {:induction false} SortListMembers(s: seq<Periph>)
    ensures |SortList(s)| == |s|
    ensures forall p :: p in SortList(s) <==> p in s
    ensures Distinct(s) ==> Distinct(SortList(s))
  {
    hide Insert, Position;
    if s != [] {
      var init, e := s[..|s| - 1], s[|s| - 1];
      assert s == init + [e];
      SortListMembers(init);
      InsertContents(SortList(init), e);
      InsertMembers(SortList(init), e);
    }
  }

  /** With no SLAVE.ORDER, sorting makes the assignment optimal: of all ways to place the
      slaves disjointly above the NULL region, aligned or not, none uses fewer address bits
      than the bus is given. */
  lemma UnorderedBusIsOptimal(ps: seq<Periph>, d: nat, nullsz: nat, busMin: nat, bs: seq<nat>, limit: nat)
    requires d <= 14 && (|ps| >= 2 || (|ps| == 1 && nullsz > 0))
    requires forall p :: p in ps ==> p.order.None? && p.width >= 1
    requires nullsz % Pow2(d) == 0 && SumsFit(Widths(SortList(ps)), d, Shr(nullsz, d))
    requires DisjointPlacement(bs, Sizes(Widths(SortList(ps)), d), nullsz, limit)
    ensures LayoutOf(Widths(SortList(ps)), d, nullsz, busMin).width <= NextLg(limit)
  {
    hide SortList, LayoutOf, Sizes, SumsFit, NextLg;
    var s := SortList(ps);
    SortListFacts(ps);
    SortListMembers(ps);
    SortAscends(ps);
    forall i | 0 <= i < |s| ensures s[i].width >= 1 {
      assert s[i] in multiset(s);
    }
    AddressWidth.SortedAssignmentIsOptimal(Widths(s), d, nullsz, busMin, bs, limit);
  }

  class Plist {
    var slaves: seq<Periph>
    var addressWidth: nat   // m_address_width, in bus units

    constructor (slaves: seq<Periph>)
      ensures this.slaves == slaves && addressWidth == 0
    {
      this.slaves := slaves;
      addressWidth := 0;
    }

    /** Sort the vector by compare_naddr. */
    method Sort()
      modifies this`slaves
      ensures slaves == SortList(old(slaves))
    {
      hide Position;
      var all := slaves;
      slaves := [];
      for k := 0 to |all|
        invariant slaves == SortList(all[..k])
      {
        var j := FindPosition(all[k]);
        slaves := slaves[..j] + [all[k]] + slaves[j..];
        assert all[..k + 1][..k] == all[..k];
      }
      assert all[..|all|] == all;
    }

    method FindPosition(e: Periph) returns (j: nat)
      ensures j == Position(slaves, e)
    {
      j := 0;
      while j < |slaves| && !Before(e.GetKey(), slaves[j].GetKey())
        invariant j <= |slaves|
        invariant Position(slaves, e) == j + Position(slaves[j..], e)
      {
        assert slaves[j..][1..] == slaves[j + 1..];
        j := j + 1;
      }
    }

    /** assign_addresses.  `lgdw` is log2 of the data width in octets. */
    method AssignAddresses(lgdw: nat, word: bool, nullsz: nat, busMin: nat)
      requires Distinct(slaves) && lgdw <= 14 && nullsz < TWO32
      requires forall p :: p in slaves ==> p.width < 32
      requires var d := if word then lgdw else 0;
        LayoutOf(Widths(SortList(slaves)), d, nullsz, busMin).width < 32 + d
      modifies this, slaves
      ensures slaves == SortList(old(slaves))
      ensures
        var d := if word then lgdw else 0;
        var l := LayoutOf(Widths(slaves), d, nullsz, busMin);
        && l.width == addressWidth + d
        && forall i :: 0 <= i < |slaves| ==> slaves[i].base == l.base[i] && slaves[i].mask == l.mask[i]
    {
      hide ChosenSlot, PlacedLayout, Pow2, Shr;
      SortListMembers(slaves);
      var d := lgdw;
      if |slaves| < 1 {
        if nullsz > 0 {
          Below32(nullsz);
          addressWidth := ComputeNextLg(nullsz);
        } else {
          addressWidth := 0;
        }
      } else if |slaves| < 2 && nullsz == 0 {
        SortOne(slaves);
        slaves[0].base, slaves[0].mask := 0, 0;
        addressWidth := slaves[0].width;
      } else {
        if !word { d := 0; }
        AssignSeveral(d, nullsz, busMin);
      }
    }

    /** The general case: sort, search for the slot width, place, trim. */
    method AssignSeveral(d: nat, nullsz: nat, busMin: nat)
      requires Distinct(slaves) && |slaves| > 0 && d <= 14 && nullsz < TWO32
      requires forall p :: p in slaves ==> p.width < 32
      requires var ws := Widths(SortList(slaves));
        Width(ws, d, ChosenSlot(ws, d, Shr(nullsz, d), busMin), nullsz) < 32 + d
      modifies this, slaves
      ensures slaves == SortList(old(slaves))
      ensures var ws := Widths(slaves);
        var l := PlacedLayout(ws, d, ChosenSlot(ws, d, Shr(nullsz, d), busMin), nullsz);
        && l.width == addressWidth + d
        && forall i :: 0 <= i < |slaves| ==> slaves[i].base == l.base[i] && slaves[i].mask == l.mask[i]
    {
      hide ChosenSlot, Width, Base, Mask, RawMask, SortList, Pow2, Shr;
      SortListMembers(slaves);
      Sort();
      SortListMembers(old(slaves));
      assert forall i :: 0 <= i < |slaves| ==> slaves[i] in old(slaves);
      var minAwd := Search(Widths(slaves), d, nullsz, busMin);
      var start := Place(d, minAwd, nullsz);
      Trim(d, minAwd, nullsz, start);
    }

    /** First pass: bases, and masks not yet trimmed to the bus. */
    method Place(d: nat, m: nat, nullsz: nat) returns (start: nat)
      requires Distinct(slaves) && |slaves| > 0
      requires Width(Widths(slaves), d, m, nullsz) < 32 + d && d <= 14
      modifies slaves
      ensures start == End(Widths(slaves), d, m, nullsz, |slaves|)
      ensures forall i :: 0 <= i < |slaves| ==> slaves[i].base == Base(Widths(slaves), d, m, nullsz, i)
      ensures forall i :: 0 <= i < |slaves| ==> slaves[i].mask == RawMask(Widths(slaves), d, m, i)
    {
      hide Pow2, NextLg, End, Base, RawMask;
      ghost var ws := Widths(slaves);
      start := nullsz;
      PlaceStart(ws, d, m, nullsz);
      for i := 0 to |slaves|
        invariant start == End(ws, d, m, nullsz, i)
        invariant forall j :: 0 <= j < i ==> slaves[j].base == Base(ws, d, m, nullsz, j)
        invariant forall j :: 0 <= j < i ==> slaves[j].mask == RawMask(ws, d, m, j)
      {
        var base, mask;
        start, base, mask := PlaceOne(slaves[i].width, d, m, start, ws, nullsz, i);
        slaves[i].base, slaves[i].mask := base, mask;
      }
    }

    /** Second pass: trim the masks to the address bits the bus has. */
    method Trim(d: nat, m: nat, nullsz: nat, start: nat)
      requires Distinct(slaves) && |slaves| > 0 && d <= 14
      requires Width(Widths(slaves), d, m, nullsz) < 32 + d
      requires start == End(Widths(slaves), d, m, nullsz, |slaves|)
      requires forall i :: 0 <= i < |slaves| ==> slaves[i].mask == RawMask(Widths(slaves), d, m, i)
      modifies this`addressWidth, slaves`mask
      ensures addressWidth + d == Width(Widths(slaves), d, m, nullsz)
      ensures forall i :: 0 <= i < |slaves| ==> slaves[i].mask == Mask(Widths(slaves), d, m, nullsz, i)
    {
      hide AlignUp, Pow2, NextLg, And, Slot, End, Mask, RawMask;
      ghost var ws := Widths(slaves);
      WidthBounds(ws, d, m, nullsz);
      var w := ComputeNextLg(start);
      for i := 0 to |slaves|
        invariant forall j :: 0 <= j < i ==> slaves[j].mask == Mask(ws, d, m, nullsz, j)
        invariant forall j :: i <= j < |slaves| ==> slaves[j].mask == RawMask(ws, d, m, j)
      {
        TrimmedMask(ws, d, m, nullsz, i);
        slaves[i].mask := And(slaves[i].mask, Pow2(w - d) - 1);
      }
      addressWidth := w - d;
    }
  }

  /** The mask of the first pass: (-1) << (slot - d) in 64 bits. */
  function RawMask(ws: seq<nat>, d: nat, m: nat, i: nat): int
    requires i < |ws|
  {
    if ws[i] + d == 0 then 0 else TWO64 - Pow2(Slot(ws[i], d, m) - d)
  }

  lemma WidthBounds(ws: seq<nat>, d: nat, m: nat, s0: nat)
    requires |ws| > 0 && Width(ws, d, m, s0) < 32 + d && d <= 14
    ensures d <= Width(ws, d, m, s0) && End(ws, d, m, s0, |ws|) <= Pow2(63)
  {
    hide AlignUp, NextLg, End;
    if ws[0] + d > 0 { WindowFits(ws, d, m, s0, 0); }
    Pow2Mono(Width(ws, d, m, s0), 63);
  }

  lemma Pow64()
    ensures Pow2(64) == TWO64 && Pow2(63) == TWO64 / 2
  {
    Pow32();
    Pow2Add(32, 32);
    assert Pow2(64) == 2 * Pow2(63);
  }

  /** x & (-1 << p) in 64 bits clears the low p bits. */
  lemma Trim64(x: nat, p: nat)
    requires p <= 64 && x < TWO64
    ensures Pow2(p) <= TWO64 && And(x, TWO64 - Pow2(p)) == x - x % Pow2(p)
  {
    hide Pow2, And;
    Pow64();
    AndMask(x, p, 64);
    ModSmall(x, TWO64);
  }

  /** One slave's base and mask, in the source's 64-bit arithmetic. */
  method PlaceOne(width: nat, d: nat, m: nat, start: nat, ghost ws: seq<nat>, ghost s0: nat, ghost i: nat)
    returns (next: nat, base: nat, mask: nat)
    requires i < |ws| && width == ws[i] && start == End(ws, d, m, s0, i)
    requires Width(ws, d, m, s0) < 32 + d && d <= 14
    ensures next == End(ws, d, m, s0, i + 1)
    ensures base == Base(ws, d, m, s0, i) && mask == RawMask(ws, d, m, i)
  {
    hide Pow2, And, End, NextLg, AlignUp, RawMask, Base;
    PlaceStep(ws, d, m, s0, i);
    var pa := width + d;
    if pa <= 0 {
      next, base, mask := start, start, 0;
    } else {
      if pa < m { pa := m; }
      MaskedBase(ws, d, m, s0, i, pa, start);
      base := And(start + Pow2(pa) - 1, TWO64 - Pow2(pa));
      next := base + Pow2(pa);
      mask := TWO64 - Pow2(pa - d);
    }
  }

  ghost predicate Fits64(p: nat, d: nat, start: nat) {
    d <= p <= 64 && start + Pow2(p) <= TWO64
  }

  /** Base and mask as the 64-bit operations compute them. */
  lemma MaskedBase(ws: seq<nat>, d: nat, m: nat, s0: nat, i: nat, pa: nat, start: nat)
    requires i < |ws| && ws[i] + d > 0 && pa == Slot(ws[i], d, m) && start == End(ws, d, m, s0, i)
    requires Fits64(pa, d, start)
    ensures Pow2(pa) <= TWO64 && And(start + Pow2(pa) - 1, TWO64 - Pow2(pa)) == Base(ws, d, m, s0, i)
    ensures Pow2(pa - d) <= TWO64 && RawMask(ws, d, m, i) == TWO64 - Pow2(pa - d)
  {
    hide Pow2, And, End;
    Trim64(0, pa - d);
    Trim64(start + Pow2(pa) - 1, pa);
  }

  lemma PlaceStart(ws: seq<nat>, d: nat, m: nat, s0: nat)
    ensures End(ws, d, m, s0, 0) == s0
  {
  }

  lemma PlaceStep(ws: seq<nat>, d: nat, m: nat, s0: nat, i: nat)
    requires i < |ws| && Width(ws, d, m, s0) < 32 + d && d <= 14
    ensures ws[i] + d == 0 ==> RawMask(ws, d, m, i) == 0
    ensures ws[i] + d == 0 ==> Base(ws, d, m, s0, i) == End(ws, d, m, s0, i) == End(ws, d, m, s0, i + 1)
    ensures ws[i] + d > 0 ==> Fits64(Slot(ws[i], d, m), d, End(ws, d, m, s0, i))
    ensures ws[i] + d > 0 ==> End(ws, d, m, s0, i + 1) == Base(ws, d, m, s0, i) + Pow2(Slot(ws[i], d, m))
  {
    hide NextLg, And, Pow2;
    if ws[i] + d > 0 {
      var p := Slot(ws[i], d, m);
      WindowFits(ws, d, m, s0, i);
      EndMono(ws, d, m, s0, i + 1, |ws|);
      WidthBounds(ws, d, m, s0);
      Pow64();
    }
  }

  lemma TrimmedMask(ws: seq<nat>, d: nat, m: nat, s0: nat, i: nat)
    requires i < |ws| && Width(ws, d, m, s0) < 32 + d && d <= 14
    ensures d <= Width(ws, d, m, s0) && RawMask(ws, d, m, i) >= 0
    ensures And(RawMask(ws, d, m, i), Pow2(Width(ws, d, m, s0) - d) - 1) == Mask(ws, d, m, s0, i)
  {
    hide NextLg, End, AlignUp, Pow2, And, Slot;
    WidthBounds(ws, d, m, s0);
    if ws[i] + d > 0 {
      WindowFits(ws, d, m, s0, i);
      Pow64();
      MaskByTrimming(Slot(ws[i], d, m), d, Width(ws, d, m, s0), 64);
    }
  }
}
