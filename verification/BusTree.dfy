/** A tree of buses: windows of nested buses across data widths and addressing modes, the
    gathered REGBASE addresses, and level-by-level decoding from the root. */
module BusTree {
  import opened Options
  import opened Bits
  import opened AddressMap

  /** log2 of a data width in octets: 8, 16, 32, ... bits. */
  type LgOctets = n: nat | n <= 14

  /** One bus, with its slaves in the order assign_addresses left them.  `word` tells
      Wishbone addressing (of whole words) from AXI addressing (of octets). */
  datatype Bus = Bus(lgdw: LgOctets, word: bool, nullsz: nat, minWidth: nat, slaves: seq<Slave>)
  datatype Slave = Leaf(id: nat, naddr: nat, memory: bool) | Bridge(id: nat, child: Bus)

  /** Octet bits below one bus address. */
  function Unit(b: Bus): nat {
    if b.word then b.lgdw else 0
  }

  // ----- widths, mutually recursive down the tree -----

  /** get_slave_address_width(): PERIPH for a leaf, SUBBUS for a bridge.  In the source the
      subtraction is unsigned; WellFormed excludes the underflow. */
  function SlaveWidth(s: Slave, lgdw: LgOctets, word: bool): nat
    decreases s, 0
  {
    match s
    case Leaf(_, naddr, _) => NextLg(naddr) + (if word then 0 else lgdw)
    case Bridge(_, child) =>
      var awid := OctetWidth(child);
      if !word then awid else if awid < lgdw then 0 else awid - lgdw
  }

  function WidthsOf(ss: seq<Slave>, lgdw: LgOctets, word: bool): (r: seq<nat>)
    ensures |r| == |ss|
    ensures forall i :: 0 <= i < |ss| ==> r[i] == SlaveWidth(ss[i], lgdw, word)
    decreases ss, 1
  {
    if ss == [] then [] else [SlaveWidth(ss[0], lgdw, word)] + WidthsOf(ss[1..], lgdw, word)
  }

  /** Bases, masks and octet width of a bus once its addresses are assigned. */
  function Map(b: Bus): (l: Layout)
    ensures |l.base| == |l.mask| == |b.slaves|
    decreases b, 1
  {
    LayoutOf(WidthsOf(b.slaves, b.lgdw, b.word), Unit(b), b.nullsz, b.minWidth)
  }

  /** byte_address_width(): address bits of the whole bus, in octets. */
  function OctetWidth(b: Bus): nat
    decreases b, 2
  {
    Map(b).width
  }

  /** The method of class SUBBUS, step by step, for a bridge onto a bus of `awid` units. */
  method SubBusWidth(child: Bus, lgdw: LgOctets, word: bool) returns (awid: nat, naddr: nat)
    requires OctetWidth(child) >= lgdw && OctetWidth(child) >= Unit(child)
    ensures awid == SlaveWidth(Bridge(0, child), lgdw, word)
    ensures naddr * Pow2(lgdw) == Pow2(OctetWidth(child))
  {
    awid := OctetWidth(child) - Unit(child);   // m_address_width, in the child's units
    if child.word { awid := awid + child.lgdw; }
    naddr := Pow2(awid - lgdw);
    Pow2Add(awid - lgdw, lgdw);
    if word { awid := awid - lgdw; }
  }

  /** Octet bits of the window a slave occupies. */
  function SlaveOctets(s: Slave, lgdw: LgOctets): nat {
    match s
    case Leaf(_, naddr, _) => NextLg(naddr) + lgdw
    case Bridge(_, child) => OctetWidth(child)
  }

  /** What the generator needs of a tree: every bus can tell its slaves apart, and no
      nested bus is narrower than one word of the bus above it. */
  ghost predicate WellFormed(b: Bus)
    decreases b
  {
    && Decodable(WidthsOf(b.slaves, b.lgdw, b.word), Unit(b), b.nullsz)
    && forall s :: s in b.slaves && s.Bridge? ==> OctetWidth(s.child) >= b.lgdw && WellFormed(s.child)
  }

  lemma WindowOctets(b: Bus, i: nat)
    requires WellFormed(b) && i < |b.slaves|
    ensures WidthsOf(b.slaves, b.lgdw, b.word)[i] + Unit(b) == SlaveOctets(b.slaves[i], b.lgdw)
  {
    assert b.slaves[i] in b.slaves;
  }

  // ----- identities -----

  function IdsOf(s: Slave): set<nat>
    decreases s, 0
  {
    match s
    case Leaf(id, _, _) => {id}
    case Bridge(id, child) => {id} + Ids(child)
  }

  function Ids(b: Bus): set<nat>
    decreases b, 0
  {
    IdsIn(b.slaves)
  }

  function IdsIn(ss: seq<Slave>): (r: set<nat>)
    ensures forall i :: 0 <= i < |ss| ==> IdsOf(ss[i]) <= r
    decreases ss, 1
  {
    if ss == [] then {} else IdsOf(ss[0]) + IdsIn(ss[1..])
  }

  /** No component hash appears twice in the tree. */
  ghost predicate UniqueIds(b: Bus)
    decreases b
  {
    && (forall i, j :: 0 <= i < j < |b.slaves| ==> IdsOf(b.slaves[i]) !! IdsOf(b.slaves[j]))
    && (forall s :: s in b.slaves && s.Bridge? ==> s.id !in Ids(s.child) && UniqueIds(s.child))
  }

  // ----- get_base_address -----


  function GetBase(b: Bus, id: nat): Option<nat>
    decreases b, |b.slaves| + 1
  {
    GetBaseFrom(b, id, 0)
  }

  /** Search the slaves from index k on, descending into every nested bus on the way. */
  function GetBaseFrom(b: Bus, id: nat, k: nat): Option<nat>
    requires k <= |b.slaves|
    decreases b, |b.slaves| - k
  {
    if k == |b.slaves| then None
    else
      var s := b.slaves[k];
      if s.id == id then Some(Map(b).base[k])
      else
        var below := if s.Bridge? then GetBase(s.child, id) else None;
        if below.Some? then Some(below.value + Map(b).base[k]) else GetBaseFrom(b, id, k + 1)
  }

  lemma NotBelow(s: Slave, id: nat)
    requires s.Bridge? && id !in IdsOf(s)
    ensures forall j :: 0 <= j < |s.child.slaves| ==> id !in IdsOf(s.child.slaves[j])
  {
  }

  lemma {:induction false} GetBaseMissing(b: Bus, id: nat, k: nat)
    requires k <= |b.slaves|
    requires forall j :: k <= j < |b.slaves| ==> id !in IdsOf(b.slaves[j])
    ensures GetBaseFrom(b, id, k) == None
    decreases b, |b.slaves| - k
  {
    if k < |b.slaves| {
      var s := b.slaves[k];
      assert id !in IdsOf(s);
      if s.Bridge? {
        NotBelow(s, id);
        GetBaseMissing(s.child, id, 0);
      }
      GetBaseMissing(b, id, k + 1);
    }
  }

  /** The search passes over slaves that do not hold the component. */
  lemma {:induction false} GetBaseSkips(b: Bus, id: nat, j: nat, k: nat)
    requires j <= k < |b.slaves|
    requires forall i :: j <= i < k ==> id !in IdsOf(b.slaves[i])
    ensures GetBaseFrom(b, id, j) == GetBaseFrom(b, id, k)
    decreases k - j
  {
    if j < k {
      var s := b.slaves[j];
      assert id !in IdsOf(s);
      if s.Bridge? {
        NotBelow(s, id);
        GetBaseMissing(s.child, id, 0);
      }
      GetBaseSkips(b, id, j + 1, k);
    }
  }

  lemma GetBaseAt(b: Bus, id: nat, k: nat)
    requires UniqueIds(b) && k < |b.slaves| && id in IdsOf(b.slaves[k])
    ensures GetBase(b, id) == GetBaseFrom(b, id, k)
  {
    forall i | 0 <= i < k ensures id !in IdsOf(b.slaves[i]) {
      assert IdsOf(b.slaves[i]) !! IdsOf(b.slaves[k]);
    }
    GetBaseSkips(b, id, 0, k);
  }

  // ----- gather_peripherals -----

  /** A gathered component, with the data width of the bus it is on, its window and REGBASE. */
  datatype Entry = Entry(slave: Slave, lgdw: LgOctets, bits: nat, regbase: nat)

  function Gather(b: Bus, base: nat): seq<Entry>
    decreases b, |b.slaves| + 1
  {
    GatherFrom(b, base, 0)
  }

  function GatherFrom(b: Bus, base: nat, k: nat): seq<Entry>
    requires k <= |b.slaves|
    decreases b, |b.slaves| - k
  {
    if k == |b.slaves| then [] else GatherOne(b, base, k) + GatherFrom(b, base, k + 1)
  }

  /** REGBASE of slave k, then everything beneath it if it bridges to another bus. */
  function GatherOne(b: Bus, base: nat, k: nat): seq<Entry>
    requires k < |b.slaves|
    decreases b, 0
  {
    var s := b.slaves[k];
    var found := GetBase(b, s.id);
    var addr := if found.Some? then found.value else 0;
    [Entry(s, b.lgdw, SlaveOctets(s, b.lgdw), addr + base)]
      + (if s.Bridge? then Gather(s.child, addr + base) else [])
  }

  /** The recursion of the source, which appends to one list as it goes. */
  method GatherPeripherals(b: Bus, base: nat, alist: seq<Entry>) returns (r: seq<Entry>)
    ensures r == alist + Gather(b, base)
    decreases b
  {
    hide Map, OctetWidth, SlaveOctets, GetBase;
    r := alist;
    for k := 0 to |b.slaves|
      invariant r + GatherFrom(b, base, k) == alist + Gather(b, base)
    {
      var s := b.slaves[k];
      var found := GetBase(b, s.id);
      var addr := if found.Some? then found.value else 0;
      r := r + [Entry(s, b.lgdw, SlaveOctets(s, b.lgdw), addr + base)];
      if s.Bridge? {
        r := GatherPeripherals(s.child, addr + base, r);
      }
    }
  }

  lemma LocalBase(b: Bus, k: nat)
    requires UniqueIds(b) && k < |b.slaves|
    ensures GetBase(b, b.slaves[k].id) == Some(Map(b).base[k])
  {
    GetBaseAt(b, b.slaves[k].id, k);
  }

  /** Membership in the gathered list, one level at a time. */
  lemma {:induction false} GatheredWhere(b: Bus, base: nat, k: nat, e: Entry) returns (i: nat)
    requires k <= |b.slaves| && e in GatherFrom(b, base, k)
    ensures k <= i < |b.slaves| && e in GatherOne(b, base, i)
    decreases |b.slaves| - k
  {
    if e in GatherOne(b, base, k) {
      i := k;
    } else {
      i := GatheredWhere(b, base, k + 1, e);
    }
  }

  /** An entry gathered from a bus is a slave of that bus or was gathered beneath one. */
  lemma GatheredCase(b: Bus, base: nat, e: Entry) returns (i: nat)
    requires UniqueIds(b) && e in Gather(b, base)
    ensures i < |b.slaves| && b.slaves[i] in b.slaves
    ensures var s, addr := b.slaves[i], Map(b).base[i] + base;
      || e == Entry(s, b.lgdw, SlaveOctets(s, b.lgdw), addr)
      || (s.Bridge? && UniqueIds(s.child) && e in Gather(s.child, addr))
  {
    hide Map, OctetWidth, SlaveOctets;
    i := GatheredWhere(b, base, 0, e);
    assert b.slaves[i] in b.slaves;
    LocalBase(b, i);
  }

  lemma WellFormedBelow(b: Bus, i: nat)
    requires WellFormed(b) && i < |b.slaves| && b.slaves[i].Bridge?
    ensures WellFormed(b.slaves[i].child)
  {
    assert b.slaves[i] in b.slaves;
  }

  /** The gathered addresses are the ones get_base_address computes from the same bus. */
  lemma {:induction false} RegbaseIsBaseAddress(b: Bus, base: nat, e: Entry)
    requires UniqueIds(b) && e in Gather(b, base)
    ensures e.slave.id in Ids(b) && e.regbase >= base
    ensures GetBase(b, e.slave.id) == Some(e.regbase - base)
    decreases b
  {
    hide Map, OctetWidth, SlaveOctets;
    var i := GatheredCase(b, base, e);
    var s := b.slaves[i];
    assert IdsOf(s) <= IdsIn(b.slaves);
    LocalBase(b, i);
    var addr := Map(b).base[i];
    if e == Entry(s, b.lgdw, SlaveOctets(s, b.lgdw), addr + base) {
    } else {
      RegbaseIsBaseAddress(s.child, addr + base, e);
      GetBaseAt(b, e.slave.id, i);
    }
  }

  // ----- decoding from the root -----

  /** A leaf reached, and the offset its address lines carry. */
  datatype Hit = Hit(leaf: Slave, offset: nat)

  /** Every leaf that answers an octet address driven on bus b.  Each level compares masked
      word addresses, and passes on as many address bits as the slave has. */
  function Decode(b: Bus, a: nat): seq<Hit>
    decreases b, |b.slaves| + 1
  {
    DecodeFrom(b, a, 0)
  }

  function DecodeFrom(b: Bus, a: nat, k: nat): seq<Hit>
    requires k <= |b.slaves|
    decreases b, |b.slaves| - k
  {
    if k == |b.slaves| then []
    else (if Selects(Map(b), Unit(b), k, a) then DecodeSlave(b.slaves[k], b.lgdw, a) else [])
         + DecodeFrom(b, a, k + 1)
  }

  function DecodeSlave(s: Slave, lgdw: LgOctets, a: nat): seq<Hit>
    decreases s, 0
  {
    match s
    case Leaf(_, _, _) => [Hit(s, a % Pow2(SlaveOctets(s, lgdw)))]
    case Bridge(_, child) => Decode(child, a % Pow2(OctetWidth(child)))
  }

  /** With a single selected slave, decoding the bus is decoding that slave. */
  lemma {:induction false} DecodeOnly(b: Bus, a: nat, i: nat, k: nat)
    requires i < |b.slaves| && SelectsOnly(Map(b), Unit(b), i, a) && k <= |b.slaves|
    ensures DecodeFrom(b, a, k) == if k <= i then DecodeSlave(b.slaves[i], b.lgdw, a) else []
    decreases |b.slaves| - k
  {
    hide Selects, Map, Unit;
    if k < |b.slaves| { DecodeOnly(b, a, i, k + 1); }
  }

  lemma MapRoutes(b: Bus, i: nat, off: nat)
    requires WellFormed(b) && i < |b.slaves| && off < Pow2(SlaveOctets(b.slaves[i], b.lgdw))
    ensures var a := Map(b).base[i] + off;
      && a < Pow2(Map(b).width)
      && a % Pow2(SlaveOctets(b.slaves[i], b.lgdw)) == off
      && SelectsOnly(Map(b), Unit(b), i, a)
  {
    hide LayoutOf, SelectsOnly, SlaveOctets, Pow2, WidthsOf;
    WindowOctets(b, i);
    Routes(WidthsOf(b.slaves, b.lgdw, b.word), Unit(b), b.nullsz, b.minWidth, i, off);
  }

  /** One level: an address inside slave i's window goes to slave i, with its offset. */
  lemma DecodeLevel(b: Bus, i: nat, off: nat)
    requires WellFormed(b) && i < |b.slaves| && off < Pow2(SlaveOctets(b.slaves[i], b.lgdw))
    ensures var a := Map(b).base[i] + off;
      && a < Pow2(OctetWidth(b))
      && a % Pow2(SlaveOctets(b.slaves[i], b.lgdw)) == off
      && Decode(b, a) == DecodeSlave(b.slaves[i], b.lgdw, a)
  {
    hide Map, DecodeSlave, SelectsOnly, Selects, SlaveOctets, Pow2, DecodeFrom, Unit;
    MapRoutes(b, i, off);
    DecodeOnly(b, Map(b).base[i] + off, i, 0);
  }

  /** The composed decode: drive the root with a leaf's REGBASE plus any offset inside the
      leaf's window, and exactly that leaf answers, with exactly that offset. */
  lemma {:induction false} RegbaseReachesLeaf(b: Bus, base: nat, e: Entry, off: nat)
    requires WellFormed(b) && UniqueIds(b) && e in Gather(b, base) && e.slave.Leaf?
    requires off < Pow2(e.bits)
    ensures e.regbase >= base && e.regbase - base + off < Pow2(OctetWidth(b))
    ensures Decode(b, e.regbase - base + off) == [Hit(e.slave, off)]
    decreases b
  {
    hide Pow2, OctetWidth, Map, DecodeFrom, Decode, Gather, WellFormed, UniqueIds;
    var i := GatheredCase(b, base, e);
    var s := b.slaves[i];
    var addr := Map(b).base[i];
    if s.Leaf? {
      DecodeLevel(b, i, off);
    } else {
      WellFormedBelow(b, i);
      RegbaseReachesLeaf(s.child, addr + base, e, off);
      DecodeLevel(b, i, e.regbase - (addr + base) + off);
    }
  }

  // ----- windows hold the registers -----

  /** Slave s is on a bus of this tree whose data width is 2^lgdw octets. */
  ghost predicate SitsOn(b: Bus, s: Slave, lgdw: LgOctets)
    decreases b
  {
    (s in b.slaves && b.lgdw == lgdw) || exists t :: t in b.slaves && t.Bridge? && SitsOn(t.child, s, lgdw)
  }

  /** An entry's data width is that of its bus, and its window is the least power of two that
      holds its registers, or else exactly the bus it bridges to. */
  lemma {:induction false} EntryWindow(b: Bus, base: nat, e: Entry)
    requires UniqueIds(b) && e in Gather(b, base)
    ensures SitsOn(b, e.slave, e.lgdw)
    ensures e.slave.Leaf? && e.slave.naddr > 0 ==>
      e.slave.naddr * Pow2(e.lgdw) <= Pow2(e.bits) < 2 * (e.slave.naddr * Pow2(e.lgdw))
    ensures e.slave.Bridge? ==> e.bits == OctetWidth(e.slave.child)
    decreases b
  {
    hide Map, OctetWidth, Gather, UniqueIds, Pow2, NextLg;
    var i := GatheredCase(b, base, e);
    var s, addr := b.slaves[i], Map(b).base[i] + base;
    if s.Bridge? && UniqueIds(s.child) && e in Gather(s.child, addr) {
      EntryWindow(s.child, addr, e);
    } else if s.Leaf? && s.naddr > 0 {
      WindowHolds(s.naddr, b.lgdw);
    }
  }

  lemma WindowHolds(naddr: nat, lgdw: nat)
    requires naddr > 0
    ensures naddr * Pow2(lgdw) <= Pow2(NextLg(naddr) + lgdw) < 2 * (naddr * Pow2(lgdw))
  {
    hide NextLg, Pow2;
    var r := NextLg(naddr);
    Pow2Add(r, lgdw);
    MulLe(naddr, Pow2(r), Pow2(lgdw));
    Pow2Succ(r);
    MultipleGap(Pow2(r), 2 * naddr, Pow2(lgdw));
    Reassociate2(naddr, Pow2(lgdw));
  }

  lemma Reassociate2(n: nat, p: nat)
    ensures (2 * n) * p == 2 * (n * p)
  {
  }

  /** Every register of every leaf can be reached: driving the root with REGBASE plus k words
      of the leaf's own bus reaches exactly that leaf, at exactly k words. */
  lemma RegistersReached(b: Bus, base: nat, e: Entry, k: nat)
    requires WellFormed(b) && UniqueIds(b) && e in Gather(b, base) && e.slave.Leaf? && k < e.slave.naddr
    ensures SitsOn(b, e.slave, e.lgdw) && e.regbase >= base
    ensures Decode(b, e.regbase - base + k * Pow2(e.lgdw)) == [Hit(e.slave, k * Pow2(e.lgdw))]
  {
    hide Gather, WellFormed, UniqueIds, Pow2, Decode, OctetWidth, SitsOn;
    EntryWindow(b, base, e);
    MultipleGap(k, e.slave.naddr, Pow2(e.lgdw));
    RegbaseReachesLeaf(b, base, e, k * Pow2(e.lgdw));
  }

  /** Every gathered address lies on the bus it was gathered from, so on a bus of at most 32
      octet address bits the source's 32-bit sums never wrap. */
  lemma {:induction false} RegbaseFits(b: Bus, base: nat, e: Entry)
    requires WellFormed(b) && UniqueIds(b) && e in Gather(b, base)
    ensures base <= e.regbase < base + Pow2(OctetWidth(b))
    decreases b
  {
    hide Pow2, Map, Gather, WellFormed, UniqueIds, Selects, SelectsOnly;
    var i := GatheredCase(b, base, e);
    var s := b.slaves[i];
    if s.Bridge? && e in Gather(s.child, Map(b).base[i] + base) && UniqueIds(s.child) {
      WellFormedBelow(b, i);
      RegbaseFits(s.child, Map(b).base[i] + base, e);
      MapRoutes(b, i, Pow2(OctetWidth(s.child)) - 1);
    } else {
      MapRoutes(b, i, 0);
    }
  }

  /** Leaf windows never overlap, wherever in the tree they are. */
  lemma LeafWindowsDisjoint(b: Bus, e: Entry, f: Entry, a: nat)
    requires WellFormed(b) && UniqueIds(b)
    requires e in Gather(b, 0) && f in Gather(b, 0) && e.slave.Leaf? && f.slave.Leaf?
    requires e.slave.id != f.slave.id
    ensures !(e.regbase <= a < e.regbase + Pow2(e.bits) && f.regbase <= a < f.regbase + Pow2(f.bits))
  {
    hide Pow2, Gather, Decode, WellFormed, UniqueIds, OctetWidth;
    if e.regbase <= a < e.regbase + Pow2(e.bits) && f.regbase <= a < f.regbase + Pow2(f.bits) {
      RegbaseReachesLeaf(b, 0, e, a - e.regbase);
      RegbaseReachesLeaf(b, 0, f, a - f.regbase);
    }
  }
}
