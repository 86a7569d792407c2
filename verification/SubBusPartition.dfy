/** WBBUS::allocate_subbus: which slaves of a Wishbone bus move to a SINGLE (SIO) or a
    DOUBLE (DIO) group of their own. */
module SubBusPartition {
  import opened Bits

  datatype Kind = SINGLE | DOUBLE | OTHER

  /** A slave on the bus: a component, or one of the two bridges the generator adds. */
  datatype Item = Device(id: nat, kind: Kind) | SioBridge | DioBridge

  /** SLAVE.TYPE; the SIO bridge is itself a DOUBLE slave, the DIO bridge an OTHER. */
  function KindOf(p: Item): Kind {
    match p
    case Device(_, kind) => kind
    case SioBridge => DOUBLE
    case DioBridge => OTHER
  }

  function Count(ps: seq<Item>, k: Kind): nat {
    if ps == [] then 0
    else Count(ps[..|ps| - 1], k) + (if KindOf(ps[|ps| - 1]) == k then 1 else 0)
  }

  datatype Group = Main | Sio | Dio

  /** Where the scan puts a slave, given which groups exist. */
  function Destination(p: Item, sio: bool, dio: bool): Group {
    if sio && KindOf(p) == SINGLE then Sio
    else if dio && KindOf(p) == DOUBLE then Dio
    else Main
  }

  /** The slaves bound for one group, in list order. */
  function Members(ps: seq<Item>, g: Group, sio: bool, dio: bool): seq<Item> {
    if ps == [] then []
    else Members(ps[..|ps| - 1], g, sio, dio)
         + (if Destination(ps[|ps| - 1], sio, dio) == g then [ps[|ps| - 1]] else [])
  }

  // ----- the decision, on the counts alone -----

  /** All slaves are SINGLE (or there are none). */
  predicate AllSingle(s: nat, d: nat, o: nat) { d == 0 && o == 0 }

  /** Only SINGLE and DOUBLE slaves, at least one of them DOUBLE. */
  predicate OnlySimple(s: nat, d: nat, o: nat) { o == 0 && d > 0 }

  /** An SIO bridge is created. */
  predicate HasSio(s: nat, d: nat, o: nat) {
    s > 0 && !AllSingle(s, d, o) && !(s <= 2 && d > 0)
  }

  /** A DIO bridge is created. */
  predicate HasDio(s: nat, d: nat, o: nat) {
    o > 0 && (if s <= 2 && d > 0 then d + s > 2 else d > 2)
  }

  /** The lists allocate_subbus leaves behind. */
  datatype Allocation = Allocation(main: seq<Item>, sio: seq<Item>, dio: seq<Item>, hasSio: bool, hasDio: bool)

  function Others(ps: seq<Item>): nat {
    CountsAddUp(ps);
    |ps| - Count(ps, SINGLE) - Count(ps, DOUBLE)
  }

  /** The slaves and the bridges to the groups, in the order they join the list. */
  function WithBridges(ps: seq<Item>, sio: bool, dio: bool): seq<Item> {
    var all := if sio then ps + [SioBridge] else ps;
    if dio then all + [DioBridge] else all
  }

  function Allocate(ps: seq<Item>): Allocation {
    var s, d, o := Count(ps, SINGLE), Count(ps, DOUBLE), Others(ps);
    var sio, dio := HasSio(s, d, o), HasDio(s, d, o);
    var all := WithBridges(ps, sio, dio);
    if o == 0 then Allocation(all, [], [], sio, dio)
    else Allocation(Members(all, Main, sio, dio), Members(all, Sio, sio, dio), Members(all, Dio, sio, dio), sio, dio)
  }

  function Inc32(x: nat): (r: nat)
    ensures x + 1 < TWO32 ==> r == x + 1
  {
    (x + 1) % TWO32
  }

  /** Decrementing zero wraps; the loop's own increment brings it back. */
  function Dec32(x: nat): (r: nat)
    ensures x < TWO32 ==> Inc32(r) == x
  {
    (x + TWO32 - 1) % TWO32
  }

  class WbBus {
    var plist: seq<Item>         // m_info->m_plist
    var slist: seq<Item>         // m_slist, meaningful when hasSlist
    var dlist: seq<Item>         // m_dlist, meaningful when hasDlist
    var hasSlist: bool
    var hasDlist: bool
    var numSingle: nat
    var numDouble: nat
    var numTotal: nat
    var isSingle: bool
    var isDouble: bool

    constructor (plist: seq<Item>)
      ensures this.plist == plist && slist == dlist == [] && !hasSlist && !hasDlist
      ensures !isSingle && !isDouble
    {
      this.plist, slist, dlist := plist, [], [];
      hasSlist, hasDlist, isSingle, isDouble := false, false, false, false;
      numSingle, numDouble, numTotal := 0, 0, 0;
    }

    method CountSio()
      modifies this`numSingle, this`numDouble, this`numTotal
      ensures numSingle == Count(plist, SINGLE) && numDouble == Count(plist, DOUBLE)
      ensures numTotal == |plist|
    {
      numSingle, numDouble, numTotal := 0, 0, 0;
      for i := 0 to |plist|
        invariant numSingle == Count(plist[..i], SINGLE) && numDouble == Count(plist[..i], DOUBLE)
        invariant numTotal == i
      {
        assert plist[..i + 1][..i] == plist[..i];
        if KindOf(plist[i]) == SINGLE { numSingle := numSingle + 1; }
        else if KindOf(plist[i]) == DOUBLE { numDouble := numDouble + 1; }
        numTotal := numTotal + 1;
      }
      assert plist[..|plist|] == plist;
    }

    method AllocateSubbus()
      requires |plist| + 2 < TWO32 && !hasSlist && !hasDlist && slist == dlist == []
      requires !isSingle && !isDouble
      modifies this
      ensures Allocation(plist, slist, dlist, hasSlist, hasDlist) == Allocate(old(plist))
      ensures var s, d, o := Count(old(plist), SINGLE), Count(old(plist), DOUBLE), Others(old(plist));
        isSingle == AllSingle(s, d, o) && isDouble == OnlySimple(s, d, o)
    {
      hide Members, Count;
      CountSio();
      ghost var o := Others(plist);
      if numSingle == numTotal {
        numSingle, isSingle := 0, true;
      } else if numSingle <= 2 && numDouble > 0 {
        numDouble, numSingle := numDouble + numSingle, 0;
      }
      if !isSingle && numSingle + numDouble == numTotal {
        numDouble, isDouble := 0, true;
      } else if numDouble <= 2 {
        numDouble := 0;
      }
      if !isSingle && numSingle > 0 {
        plist, hasSlist := plist + [SioBridge], true;
        numTotal := numTotal + 1;
      }
      if !isDouble && numDouble > 0 {
        numTotal := numTotal + 1;
        plist, hasDlist := plist + [DioBridge], true;
      }
      if !isDouble && !isSingle {
        Scan();
      }
    }

    /** Erase from m_plist while scanning it; the index wraps below zero and back. */
    method Scan()
      requires |plist| < TWO32 && slist == dlist == []
      modifies this`plist, this`slist, this`dlist
      ensures plist == Members(old(plist), Main, hasSlist, hasDlist)
      ensures slist == Members(old(plist), Sio, hasSlist, hasDlist)
      ensures dlist == Members(old(plist), Dio, hasSlist, hasDlist)
    {
      hide Scanned;
      ghost var all, k: nat := plist, 0;
      ScanStart(all, hasSlist, hasDlist);
      var pi: nat := 0;
      while pi < |plist|
        invariant Scanned(all, k, hasSlist, hasDlist, plist, slist, dlist, pi)
        invariant |plist| < TWO32
        decreases |all| - k
      {
        ScanStep(all, k, hasSlist, hasDlist, plist, slist, dlist, pi);
        pi := ScanOne(pi);
        k := k + 1;
      }
      ScanEnd(all, k, hasSlist, hasDlist, plist, slist, dlist, pi);
    }

    /** One iteration of the scan, on the slave at index pi. */
    method ScanOne(pi: nat) returns (next: nat)
      requires pi < |plist| < TWO32
      modifies this`plist, this`slist, this`dlist
      ensures var p := old(plist)[pi];
        match Destination(p, hasSlist, hasDlist)
        case Main => next == pi + 1 && plist == old(plist) && slist == old(slist) && dlist == old(dlist)
        case Sio => next == pi && plist == old(plist[..pi] + plist[pi + 1..])
                    && slist == old(slist) + [p] && dlist == old(dlist)
        case Dio => next == pi && plist == old(plist[..pi] + plist[pi + 1..])
                    && slist == old(slist) && dlist == old(dlist) + [p]
    {
      var p := plist[pi];
      next := pi;
      if hasSlist && KindOf(p) == SINGLE {
        plist := plist[..pi] + plist[pi + 1..];
        next := Dec32(next);
        slist := slist + [p];
      } else if hasDlist && KindOf(p) == DOUBLE {
        plist := plist[..pi] + plist[pi + 1..];
        next := Dec32(next);
        dlist := dlist + [p];
      }
      next := Inc32(next);
    }
  }

  /** The state of the scan once the first k slaves have been looked at. */
  ghost predicate Scanned(all: seq<Item>, k: nat, sio: bool, dio: bool,
                          plist: seq<Item>, slist: seq<Item>, dlist: seq<Item>, pi: nat)
  {
    && k <= |all|
    && plist == Members(all[..k], Main, sio, dio) + all[k..] && pi == |Members(all[..k], Main, sio, dio)|
    && slist == Members(all[..k], Sio, sio, dio) && dlist == Members(all[..k], Dio, sio, dio)
  }

  lemma ScanStart(all: seq<Item>, sio: bool, dio: bool)
    ensures Scanned(all, 0, sio, dio, all, [], [], 0)
  {
    assert all[..0] == [] && all[0..] == all;
    NoMembers(sio, dio);
  }

  lemma ScanEnd(all: seq<Item>, k: nat, sio: bool, dio: bool,
                plist: seq<Item>, slist: seq<Item>, dlist: seq<Item>, pi: nat)
    requires Scanned(all, k, sio, dio, plist, slist, dlist, pi) && pi >= |plist|
    ensures plist == Members(all, Main, sio, dio)
    ensures slist == Members(all, Sio, sio, dio) && dlist == Members(all, Dio, sio, dio)
  {
    hide Members;
    assert all[k..] == [];
    assert all[..k] == all;
  }

  /** What is done to the slave at pi is what its destination calls for. */
  lemma ScanStep(all: seq<Item>, k: nat, sio: bool, dio: bool,
                 plist: seq<Item>, slist: seq<Item>, dlist: seq<Item>, pi: nat)
    requires Scanned(all, k, sio, dio, plist, slist, dlist, pi) && pi < |plist|
    ensures k < |all| && plist[pi] == all[k]
    ensures var p := plist[pi];
      match Destination(p, sio, dio)
      case Main => Scanned(all, k + 1, sio, dio, plist, slist, dlist, pi + 1)
      case Sio => Scanned(all, k + 1, sio, dio, plist[..pi] + plist[pi + 1..], slist + [p], dlist, pi)
      case Dio => Scanned(all, k + 1, sio, dio, plist[..pi] + plist[pi + 1..], slist, dlist + [p], pi)
  {
    hide Members, Destination;
    var stay := Members(all[..k], Main, sio, dio);
    MembersStep(all, k, sio, dio);
    EraseAt(stay, all[k..]);
    KeepAt(stay, all[k..]);
    assert all[k..][1..] == all[k + 1..];
  }

  lemma EraseAt(stay: seq<Item>, rest: seq<Item>)
    requires rest != []
    ensures var all, i := stay + rest, |stay|;
      all[..i] + all[i + 1..] == stay + rest[1..]
  {
  }

  lemma KeepAt(stay: seq<Item>, rest: seq<Item>)
    requires rest != []
    ensures stay + rest == (stay + [rest[0]]) + rest[1..]
  {
  }

  lemma NoMembers(sio: bool, dio: bool)
    ensures forall g :: Members([], g, sio, dio) == []
  {
  }

  lemma MembersStep(ps: seq<Item>, k: nat, sio: bool, dio: bool)
    requires k < |ps|
    ensures forall g :: (Members(ps[..k + 1], g, sio, dio)
      == Members(ps[..k], g, sio, dio) + (if Destination(ps[k], sio, dio) == g then [ps[k]] else []))
  {
    assert ps[..k + 1][..k] == ps[..k];
  }

  lemma {:induction false} CountsAddUp(ps: seq<Item>)
    ensures Count(ps, SINGLE) + Count(ps, DOUBLE) + Count(ps, OTHER) == |ps|
  {
    if ps != [] { CountsAddUp(ps[..|ps| - 1]); }
  }

  // ----- what the partition guarantees -----

  /** Every slave ends up in exactly one group. */
  lemma {:induction false} PartitionConserves(ps: seq<Item>, sio: bool, dio: bool)
    ensures multiset(Members(ps, Main, sio, dio)) + multiset(Members(ps, Sio, sio, dio))
            + multiset(Members(ps, Dio, sio, dio)) == multiset(ps)
  {
    if ps == [] {
      NoMembers(sio, dio);
    } else {
      hide Members, Destination;
      var k := |ps| - 1;
      var init, p := ps[..k], ps[k];
      PartitionConserves(init, sio, dio);
      MembersStep(ps, k, sio, dio);
      assert ps[..k + 1] == ps && ps == init + [p];
      var m, s, d := Members(init, Main, sio, dio), Members(init, Sio, sio, dio), Members(init, Dio, sio, dio);
      var none: seq<Item> := [];
      ConserveStep(m, s, d, init, p);
      match Destination(p, sio, dio)
      case Main => Regroup(ps, sio, dio, m + [p], s + none, d + none);
      case Sio => Regroup(ps, sio, dio, m + none, s + [p], d + none);
      case Dio => Regroup(ps, sio, dio, m + none, s + none, d + [p]);
    }
  }

  lemma Regroup(ps: seq<Item>, sio: bool, dio: bool, m: seq<Item>, s: seq<Item>, d: seq<Item>)
    requires m == Members(ps, Main, sio, dio) && s == Members(ps, Sio, sio, dio) && d == Members(ps, Dio, sio, dio)
    requires multiset(m) + multiset(s) + multiset(d) == multiset(ps)
    ensures multiset(Members(ps, Main, sio, dio)) + multiset(Members(ps, Sio, sio, dio))
            + multiset(Members(ps, Dio, sio, dio)) == multiset(ps)
  {
  }

  lemma ConserveStep(a: seq<Item>, b: seq<Item>, c: seq<Item>, s: seq<Item>, p: Item)
    requires multiset(a) + multiset(b) + multiset(c) == multiset(s)
    ensures multiset(a + [p]) + multiset(b + []) + multiset(c + []) == multiset(s + [p])
    ensures multiset(a + []) + multiset(b + [p]) + multiset(c + []) == multiset(s + [p])
    ensures multiset(a + []) + multiset(b + []) + multiset(c + [p]) == multiset(s + [p])
  {
    assert a + [] == a && b + [] == b && c + [] == c;
  }

  /** `s` is what remains of `t` after deletions. */
  predicate Subsequence(s: seq<Item>, t: seq<Item>)
    decreases |t|
  {
    if s == [] then true
    else if t == [] then false
    else Subsequence(s, t[..|t| - 1])
         || (s[|s| - 1] == t[|t| - 1] && Subsequence(s[..|s| - 1], t[..|t| - 1]))
  }

  /** Each group keeps the relative order of the original list. */
  lemma {:induction false} PartitionKeepsOrder(ps: seq<Item>, g: Group, sio: bool, dio: bool)
    ensures Subsequence(Members(ps, g, sio, dio), ps)
  {
    if ps != [] {
      var init, p := ps[..|ps| - 1], ps[|ps| - 1];
      assert ps == init + [p];
      PartitionKeepsOrder(init, g, sio, dio);
      var m := Members(init, g, sio, dio);
      if Destination(p, sio, dio) == g {
        assert (m + [p])[..|m|] == m;
      } else {
        assert Members(ps, g, sio, dio) == m;
      }
    }
  }

  /** A group holds exactly the slaves of its kind. */
  lemma {:induction false} GroupKinds(ps: seq<Item>, sio: bool, dio: bool, p: Item)
    ensures p in Members(ps, Sio, sio, dio) <==> sio && p in ps && KindOf(p) == SINGLE
    ensures p in Members(ps, Dio, sio, dio) <==> dio && p in ps && KindOf(p) == DOUBLE
  {
    if ps != [] {
      var init := ps[..|ps| - 1];
      assert ps == init + [ps[|ps| - 1]];
      GroupKinds(init, sio, dio, p);
    }
  }

  lemma {:induction false} GroupSizes(ps: seq<Item>, sio: bool, dio: bool)
    ensures |Members(ps, Sio, sio, dio)| == if sio then Count(ps, SINGLE) else 0
    ensures |Members(ps, Dio, sio, dio)| == if dio then Count(ps, DOUBLE) else 0
  {
    if ps != [] { GroupSizes(ps[..|ps| - 1], sio, dio); }
  }

  lemma AppendedCount(ps: seq<Item>, p: Item, k: Kind)
    ensures Count(ps + [p], k) == Count(ps, k) + (if KindOf(p) == k then 1 else 0)
  {
    assert (ps + [p])[..|ps|] == ps;
  }

  /** On a bus with other slaves, an SIO group holds all the SINGLEs, and a DIO group all the
      DOUBLEs plus the SIO bridge if there is one. */
  lemma AllocatedSizes(ps: seq<Item>)
    ensures var s, d, a := Count(ps, SINGLE), Count(ps, DOUBLE), Allocate(ps);
      && |a.sio| == (if a.hasSio && Others(ps) > 0 then s else 0)
      && |a.dio| == (if a.hasDio then d + (if a.hasSio then 1 else 0) else 0)
  {
    var s, d, o := Count(ps, SINGLE), Count(ps, DOUBLE), Others(ps);
    var sio, dio := HasSio(s, d, o), HasDio(s, d, o);
    var all := if sio then ps + [SioBridge] else ps;
    AppendedCount(ps, SioBridge, SINGLE); AppendedCount(ps, SioBridge, DOUBLE);
    AppendedCount(all, DioBridge, SINGLE); AppendedCount(all, DioBridge, DOUBLE);
    GroupSizes(WithBridges(ps, sio, dio), sio, dio);
  }

  /** The emitted SIO logic needs three slaves (WbDecode.SioSliceLegalIff), the DIO logic two: a
      lone slave's mask is 0, which is emitted as a strobe that never rises. */
  predicate Usable(a: Allocation) {
    (a.hasSio ==> |a.sio| >= 3) && (a.hasDio ==> |a.dio| >= 2)
  }

  /** Exactly which buses get groups that can be decoded.  It fails for one or two SINGLEs
      without a DOUBLE beside others; for two SINGLEs and one DOUBLE beside others (the DIO
      group is counted as three slaves but receives one); and for three or more SINGLEs with
      only DOUBLEs beside them (the SIO group is created but never filled). */
  lemma UsableIff(ps: seq<Item>)
    ensures var s, d, o := Count(ps, SINGLE), Count(ps, DOUBLE), Others(ps);
      Usable(Allocate(ps)) <==>
        !((o > 0 && d == 0 && 1 <= s <= 2) || (o > 0 && d == 1 && s == 2) || (o == 0 && d > 0 && s >= 3))
  {
    AllocatedSizes(ps);
  }

  // ----- where each slave goes -----

  /** A group's members are the slaves of the list whose destination it is. */
  lemma {:induction false} MemberIff(ps: seq<Item>, g: Group, sio: bool, dio: bool, p: Item)
    ensures p in Members(ps, g, sio, dio) <==> p in ps && Destination(p, sio, dio) == g
  {
    if ps != [] {
      hide Destination;
      var init := ps[..|ps| - 1];
      assert ps == init + [ps[|ps| - 1]];
      MemberIff(init, g, sio, dio, p);
    }
  }

  /** The counters count: kinds are told apart by the entries themselves. */
  lemma {:induction false} CountIsNumber(ps: seq<Item>, k: Kind)
    ensures Count(ps, k) == |set i | 0 <= i < |ps| && KindOf(ps[i]) == k|
  {
    if ps != [] {
      hide KindOf;
      var n := |ps| - 1;
      CountIsNumber(ps[..n], k);
      OneMoreIndex(ps, k, n);
    }
  }

  lemma OneMoreIndex(ps: seq<Item>, k: Kind, n: nat)
    requires |ps| == n + 1
    ensures (set i | 0 <= i < |ps| && KindOf(ps[i]) == k) ==
      (set i | 0 <= i < |ps[..n]| && KindOf(ps[..n][i]) == k) + (if KindOf(ps[n]) == k then {n} else {})
  {
    hide KindOf;
  }

  lemma CountZero(ps: seq<Item>, k: Kind)
    ensures Count(ps, k) == 0 <==> forall p :: p in ps ==> KindOf(p) != k
  {
    CountIsNumber(ps, k);
    var all := set i | 0 <= i < |ps| && KindOf(ps[i]) == k;
    forall p | p in ps && KindOf(p) == k ensures Count(ps, k) != 0 {
      var i :| 0 <= i < |ps| && ps[i] == p;
      assert i in all;
    }
    if all != {} {
      var i :| i in all;
      assert ps[i] in ps;
    }
  }

  /** Which components keep their place on the bus, and which leave it for a group.  Only
      beside slaves of other kinds does one leave: a SINGLE unless there are at most two and a
      DOUBLE to keep them company, a DOUBLE if it would be one of three in the group or more;
      those at most two SINGLEs are then counted with the DOUBLEs. */
  lemma WhoLeavesTheBus(ps: seq<Item>, p: Item)
    requires p in ps && p.Device?
    ensures var s, d, o, a := Count(ps, SINGLE), Count(ps, DOUBLE), Count(ps, OTHER), Allocate(ps);
      && (p in a.sio <==> p.kind == SINGLE && o > 0 && (s > 2 || d == 0))
      && (p in a.dio <==> p.kind == DOUBLE && o > 0 && (if s <= 2 then s + d > 2 else d > 2))
      && (p in a.main <==> p !in a.sio && p !in a.dio)
  {
    hide Members, Count;
    var s, d, o := Count(ps, SINGLE), Count(ps, DOUBLE), Others(ps);
    CountsAddUp(ps);
    CountZero(ps, p.kind);
    var sio, dio := HasSio(s, d, o), HasDio(s, d, o);
    var all := WithBridges(ps, sio, dio);
    assert p in all;
    MemberIff(all, Main, sio, dio, p);
    MemberIff(all, Sio, sio, dio, p);
    MemberIff(all, Dio, sio, dio, p);
  }

  /** Each bridge that is created is a slave of the bus its group was taken from, the bridge to
      the SIO group one of the DIO group if there is one. */
  lemma BridgesPlaced(ps: seq<Item>)
    requires forall p :: p in ps ==> p.Device?
    ensures var a := Allocate(ps);
      && (DioBridge in a.main <==> a.hasDio) && DioBridge !in a.sio + a.dio
      && (SioBridge in a.main <==> a.hasSio && !a.hasDio) && (SioBridge in a.dio <==> a.hasSio && a.hasDio)
      && SioBridge !in a.sio
  {
    hide Members, Count, HasSio;
    var s, d, o := Count(ps, SINGLE), Count(ps, DOUBLE), Others(ps);
    var sio, dio := HasSio(s, d, o), HasDio(s, d, o);
    var all := WithBridges(ps, sio, dio);
    assert (SioBridge in all <==> sio) && (DioBridge in all <==> dio);
    forall g, p | p in [SioBridge, DioBridge]
      ensures p in Members(all, g, sio, dio) <==> p in all && Destination(p, sio, dio) == g
    {
      MemberIff(all, g, sio, dio, p);
    }
  }

  predicate EndsIn(ps: seq<Item>, p: Item) { ps != [] && ps[|ps| - 1] == p }

  /** A bridge joins its list behind every component. */
  lemma BridgesLast(ps: seq<Item>)
    ensures var a := Allocate(ps);
      && (a.hasDio ==> EndsIn(a.main, DioBridge))
      && (a.hasSio ==> EndsIn(if a.hasDio then a.dio else a.main, SioBridge))
  {
    hide Members, Count, HasSio;
    var s, d, o := Count(ps, SINGLE), Count(ps, DOUBLE), Others(ps);
    var sio, dio := HasSio(s, d, o), HasDio(s, d, o);
    var one := if sio then ps + [SioBridge] else ps;
    if sio { MembersSnoc(ps, SioBridge, sio, dio); }
    if dio { MembersSnoc(one, DioBridge, sio, dio); }
  }

  lemma MembersSnoc(ps: seq<Item>, p: Item, sio: bool, dio: bool)
    ensures forall g :: (Members(ps + [p], g, sio, dio)
      == Members(ps, g, sio, dio) + (if Destination(p, sio, dio) == g then [p] else []))
  {
    assert (ps + [p])[..|ps|] == ps && (ps + [p])[..|ps| + 1] == ps + [p];
    MembersStep(ps + [p], |ps|, sio, dio);
  }

  /** The two flags of the generator, on the slaves themselves. */
  lemma FlagsIff(ps: seq<Item>)
    ensures var s, d, o := Count(ps, SINGLE), Count(ps, DOUBLE), Others(ps);
      && (AllSingle(s, d, o) <==> forall p :: p in ps ==> KindOf(p) == SINGLE)
      && (OnlySimple(s, d, o) <==>
            (forall p :: p in ps ==> KindOf(p) != OTHER) && exists p :: p in ps && KindOf(p) == DOUBLE)
  {
    hide Count;
    CountsAddUp(ps);
    CountZero(ps, DOUBLE);
    CountZero(ps, OTHER);
  }
}
