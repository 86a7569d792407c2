/** The clocked return paths emitted for DIO and SIO groups, over every run.

    The bus is pipelined Wishbone (section 3.1.3 of the WISHBONE B4 specification): a
    request is one cycle with cyc and stb high, and its acknowledgment comes back later,
    in order.  Neither group ever stalls. */
module WbReturnPath {
  import opened Bits
  import opened AddressMap
  import opened WbDecode

  /** The bus wires of one clock cycle; addr is a word address within the group. */
  datatype Cycle = Cycle(reset: bool, cyc: bool, stb: bool, addr: nat)

  /** The cycle does not abort what is in flight. */
  predicate Live(c: Cycle) { c.cyc && !c.reset }

  /** What the slaves drive on their idata wires in one clock cycle. */
  type Returns = seq<int>

  // ----- the DIO registers -----

  /** r_dio_ack, r_dio_bus_select and r_dio_data. */
  datatype Dio = Dio(ack0: bool, ack1: bool, select: nat, data: int)

  /** The word slaves have on return when the select register names slave k; out of range
      the emitted default reads the last slave. */
  function Pick(r: Returns, k: nat): int {
    if k < |r| then r[k] else if r == [] then 0 else r[|r| - 1]
  }

  /** One rising clock edge. */
  ghost function DioStep(l: Layout, d: nat, s: Dio, c: Cycle, r: Returns): Dio
    requires |l.base| == |l.mask|
  {
    Dio(Live(c) && c.stb, Live(c) && s.ack0, DioIndex(l, d, c.addr, 0), Pick(r, s.select))
  }

  /** The registers in cycle t of a run: initially no acknowledgment is pending, and the
      select and data registers hold anything. */
  ghost function DioAt(l: Layout, d: nat, init: Dio, bus: seq<Cycle>, ret: seq<Returns>, t: nat): Dio
    requires |l.base| == |l.mask| && t <= |bus| == |ret|
  {
    if t == 0 then init.(ack0 := false, ack1 := false)
    else DioStep(l, d, DioAt(l, d, init, bus, ret, t - 1), bus[t - 1], ret[t - 1])
  }

  /** The group's acknowledgment wire in cycle t. */
  ghost predicate DioAck(l: Layout, d: nat, init: Dio, bus: seq<Cycle>, ret: seq<Returns>, t: nat)
    requires |l.base| == |l.mask| && t <= |bus| == |ret|
  {
    DioAt(l, d, init, bus, ret, t).ack1
  }

  /** A request of cycle t that is not aborted in cycle t or t+1. */
  predicate Served(bus: seq<Cycle>, t: nat)
    requires t + 1 < |bus|
  {
    bus[t].stb && Live(bus[t]) && Live(bus[t + 1])
  }

  lemma EdgeAck(l: Layout, d: nat, init: Dio, bus: seq<Cycle>, ret: seq<Returns>, t: nat)
    requires |l.base| == |l.mask| && 1 <= t <= |bus| == |ret|
    ensures DioAt(l, d, init, bus, ret, t).ack0 == (Live(bus[t - 1]) && bus[t - 1].stb)
    ensures DioAt(l, d, init, bus, ret, t).ack1
         == (Live(bus[t - 1]) && DioAt(l, d, init, bus, ret, t - 1).ack0)
  {
  }

  /** Acknowledgment comes exactly two cycles after each served request, and no other time:
      in particular none for an aborted cycle ever appears after cyc drops. */
  lemma AckExactly(l: Layout, d: nat, init: Dio, bus: seq<Cycle>, ret: seq<Returns>, t: nat)
    requires |l.base| == |l.mask| && t <= |bus| == |ret|
    ensures DioAck(l, d, init, bus, ret, t) <==> t >= 2 && Served(bus, t - 2)
    ensures t >= 1 && !Live(bus[t - 1]) ==> !DioAck(l, d, init, bus, ret, t)
    ensures t >= 2 && !Live(bus[t - 2]) ==> !DioAck(l, d, init, bus, ret, t)
  {
    hide DioIndex, Pick;
    if t == 1 {
      assert !DioAt(l, d, init, bus, ret, 0).ack0;
    } else if t >= 2 {
      EdgeAck(l, d, init, bus, ret, t - 1);
      EdgeAck(l, d, init, bus, ret, t);
    }
  }

  /** Acknowledgments seen before cycle t, and served requests before cycle t-2. */
  ghost function Acks(l: Layout, d: nat, init: Dio, bus: seq<Cycle>, ret: seq<Returns>, t: nat): nat
    requires |l.base| == |l.mask| && t <= |bus| == |ret|
  {
    if t == 0 then 0
    else Acks(l, d, init, bus, ret, t - 1) + (if DioAck(l, d, init, bus, ret, t - 1) then 1 else 0)
  }

  function Requests(bus: seq<Cycle>, t: nat): nat
    requires t <= |bus|
  {
    if t == 0 then 0 else Requests(bus, t - 1) + (if bus[t - 1].stb then 1 else 0)
  }

  /** Conservation: there are never more acknowledgments than requests, and as long as the
      bus cycle is never dropped or reset every request is acknowledged two cycles on. */
  lemma {:induction false} AcksMatchRequests(l: Layout, d: nat, init: Dio, bus: seq<Cycle>, ret: seq<Returns>, t: nat)
    requires |l.base| == |l.mask| && t + 2 <= |bus| == |ret|
    ensures Acks(l, d, init, bus, ret, t + 2) <= Requests(bus, t)
    ensures (forall i :: 0 <= i < |bus| ==> Live(bus[i])) ==> Acks(l, d, init, bus, ret, t + 2) == Requests(bus, t)
  {
    AckExactly(l, d, init, bus, ret, t + 1);
    if t == 0 {
      AckExactly(l, d, init, bus, ret, 0);
      assert Acks(l, d, init, bus, ret, 1) == 0;
    } else {
      AcksMatchRequests(l, d, init, bus, ret, t - 1);
    }
  }

  /** Data returned with the acknowledgment is what the strobed slave drives in the cycle
      after its strobe, whatever requests came before or follow. */
  lemma DataOfStrobedSlave(ws: seq<nat>, d: nat, l: Layout, init: Dio, bus: seq<Cycle>, ret: seq<Returns>,
                           t: nat, k: nat, a: nat)
    requires Group(ws, d, l) && t + 2 <= |bus| == |ret| && k < |ws|
    requires |ret[t + 1]| == |ws| && a < Pow2(l.width) && bus[t].addr == Shr(a, d)
    requires DioStrobe(l, d, k, bus[t].addr)
    ensures DioAt(l, d, init, bus, ret, t + 2).data == ret[t + 1][k]
  {
    hide DioStrobe, Group, DioIndex, Shr;
    GroupLengths(ws, d, l);
    MuxFollowsStrobe(ws, d, l, k, a);
    var s := DioAt(l, d, init, bus, ret, t + 1);
    assert s == DioStep(l, d, DioAt(l, d, init, bus, ret, t), bus[t], ret[t]);
    assert s.select == k;
    assert DioAt(l, d, init, bus, ret, t + 2) == DioStep(l, d, s, bus[t + 1], ret[t + 1]);
  }

  /** The whole contract a DOUBLE slave sees: a request strobing slave k in cycle t, not
      aborted, is acknowledged in cycle t+2 with the word slave k drives in cycle t+1. */
  lemma DoubleContract(ws: seq<nat>, d: nat, l: Layout, init: Dio, bus: seq<Cycle>, ret: seq<Returns>,
                       t: nat, k: nat, a: nat)
    requires Group(ws, d, l) && t + 2 <= |bus| == |ret| && k < |ws| && Served(bus, t)
    requires |ret[t + 1]| == |ws| && a < Pow2(l.width) && bus[t].addr == Shr(a, d)
    requires l.base[k] <= a < l.base[k] + Pow2(ws[k] + d)
    ensures DioStrobe(l, d, k, bus[t].addr)
    ensures DioAck(l, d, init, bus, ret, t + 2)
    ensures DioAt(l, d, init, bus, ret, t + 2).data == ret[t + 1][k]
  {
    hide DioStrobe, Shr, DioAt, Pow2, LayoutOf, Selects;
    Routes(ws, d, 0, 0, k, a - l.base[k]);
    DecodersAgree(ws, d, l, k, a);
    DataOfStrobedSlave(ws, d, l, init, bus, ret, t, k, a);
    AckExactly(l, d, init, bus, ret, t + 2);
  }

  // ----- the SIO registers -----

  /** r_sio_ack and r_sio_data. */
  datatype Sio = Sio(ack: bool, data: int)

  function SioStep(l: Layout, d: nat, stb: bool, wa: nat, r: Returns): Sio
    requires |l.base| == |l.mask|
  {
    Sio(stb, Pick(r, SioIndex(l, d, wa, 0)))
  }

  /** The registers in cycle t; `wa` is the group's own address lines in each cycle. */
  function SioAt(l: Layout, d: nat, init: Sio, stb: seq<bool>, wa: seq<nat>, ret: seq<Returns>, t: nat): Sio
    requires |l.base| == |l.mask| && t <= |stb| == |wa| == |ret|
  {
    if t == 0 then init.(ack := false) else SioStep(l, d, stb[t - 1], wa[t - 1], ret[t - 1])
  }

  /** The SINGLE contract: one cycle after its strobe, slave j's acknowledgment and the word
      it drove during the strobe. */
  lemma SingleContract(n: nat, d: nat, l: Layout, init: Sio, stb: seq<bool>, wa: seq<nat>, ret: seq<Returns>,
                       t: nat, j: nat)
    requires SingleGroup(n, d, l) && n >= 3 && j < n && t < |stb| == |wa| == |ret| && |ret[t]| == n
    requires stb[t] && SioStrobe(l, d, j, wa[t])
    ensures SioAt(l, d, init, stb, wa, ret, t + 1) == Sio(true, ret[t][j])
  {
    hide SioStrobe, SioIndex;
    SioDecode(n, d, l, j, wa[t]);
  }

  /** The group's acknowledgment follows each strobe by one cycle, and comes at no other time. */
  lemma SioAckExactly(l: Layout, d: nat, init: Sio, stb: seq<bool>, wa: seq<nat>, ret: seq<Returns>, t: nat)
    requires |l.base| == |l.mask| && t <= |stb| == |wa| == |ret|
    ensures SioAt(l, d, init, stb, wa, ret, t).ack <==> t >= 1 && stb[t - 1]
  {
  }

  /** Acknowledgments seen before cycle t, and strobes before it. */
  function SioAcks(l: Layout, d: nat, init: Sio, stb: seq<bool>, wa: seq<nat>, ret: seq<Returns>, t: nat): nat
    requires |l.base| == |l.mask| && t <= |stb| + 1 && |stb| == |wa| == |ret|
  {
    if t == 0 then 0
    else SioAcks(l, d, init, stb, wa, ret, t - 1) + (if SioAt(l, d, init, stb, wa, ret, t - 1).ack then 1 else 0)
  }

  function StrobesBefore(stb: seq<bool>, t: nat): nat
    requires t <= |stb|
  {
    if t == 0 then 0 else StrobesBefore(stb, t - 1) + (if stb[t - 1] then 1 else 0)
  }

  /** Conservation: each strobe is acknowledged once. */
  lemma {:induction false} SioAcksMatchStrobes(l: Layout, d: nat, init: Sio, stb: seq<bool>, wa: seq<nat>,
                                               ret: seq<Returns>, t: nat)
    requires |l.base| == |l.mask| && t <= |stb| == |wa| == |ret|
    ensures SioAcks(l, d, init, stb, wa, ret, t + 1) == StrobesBefore(stb, t)
  {
    hide SioAt;
    SioAckExactly(l, d, init, stb, wa, ret, t);
    if t > 0 { SioAcksMatchStrobes(l, d, init, stb, wa, ret, t - 1); }
    else { assert SioAcks(l, d, init, stb, wa, ret, 0) == 0; }
  }

  // ----- an SIO group inside a DIO group -----

  /** A run of a DIO group whose slave q is the bridge to an SIO group of n slaves.  The
      bridge's idata is the SIO data register, and the SIO address lines are the low bits of
      the DIO's; `single` holds what the SINGLE slaves drive in each cycle. */
  ghost predicate Nested(n: nat, d: nat, sio: Layout, init: Sio, q: nat,
                         bus: seq<Cycle>, ret: seq<Returns>, single: seq<Returns>)
  {
    && SingleGroup(n, d, sio) && n >= 3 && |bus| == |ret| == |single|
    && (forall t :: 0 <= t < |single| ==> |single[t]| == n)
    && (forall t :: 0 <= t < |bus| ==> q < |ret[t]|)
    && (forall t :: 0 <= t < |bus| ==>
          ret[t][q] == SioAt(sio, d, init, Strobes(bus), Lines(bus, n), single, t).data)
  }

  function Strobes(bus: seq<Cycle>): (r: seq<bool>)
    ensures |r| == |bus| && forall t :: 0 <= t < |bus| ==> r[t] == bus[t].stb
  {
    seq(|bus|, t requires 0 <= t < |bus| => bus[t].stb)
  }

  /** The low NextLg(n) address bits, all the SIO group decodes. */
  function Lines(bus: seq<Cycle>, n: nat): (r: seq<nat>)
    ensures |r| == |bus| && forall t :: 0 <= t < |bus| ==> r[t] == bus[t].addr % Pow2(NextLg(n))
  {
    seq(|bus|, t requires 0 <= t < |bus| => bus[t].addr % Pow2(NextLg(n)))
  }

  /** Where SINGLE slave j of a nested group sits on the DIO bus, and what its own group
      sees of that address. */
  lemma NestedAddress(ws: seq<nat>, d: nat, l: Layout, n: nat, sio: Layout, q: nat, j: nat)
    requires Group(ws, d, l) && SingleGroup(n, d, sio) && n >= 3 && j < n
    requires q < |ws| && ws[q] == NextLg(n)
    ensures var a := l.base[q] + Shl(j, d);
      && a < Pow2(l.width) && l.base[q] <= a < l.base[q] + Pow2(ws[q] + d)
      && Shr(a, d) % Pow2(NextLg(n)) == j
  {
    hide Pow2, NextLg, LayoutOf, Selects, Shl, Shr, SelectsOnly;
    ShlBelow(j, d, NextLg(n));
    Routes(ws, d, 0, 0, q, Shl(j, d));
    WordOfOffset(l.base[q] + Shl(j, d), j, d, NextLg(n));
  }

  lemma ShlBelow(j: nat, d: nat, w: nat)
    requires j < Pow2(w)
    ensures Shl(j, d) < Pow2(w + d)
  {
    hide Pow2;
    Pow2Add(w, d);
    MultipleGap(j, Pow2(w), Pow2(d));
    Pow2Positive(d);
    assert Pow2(d) * j == j * Pow2(d);
  }

  /** If the low w+d bits of an octet address are j words, the low w bits of its word are j. */
  lemma WordOfOffset(a: nat, j: nat, d: nat, w: nat)
    requires a % Pow2(w + d) == Shl(j, d)
    ensures Shr(a, d) % Pow2(w) == j
  {
    hide Pow2;
    Pow2Add(d, w);
    DivDiv(a, Pow2(d), Pow2(w));
    var x := Shr(a, d) % Pow2(w);
    Commute(Pow2(d), j);
    Commute(Pow2(d), x);
    SameQuotient(j, 0, x, a % Pow2(d), Pow2(d));
  }

  lemma Pow2Positive(d: nat)
    ensures Pow2(d) > 0
  {
  }

  /** SINGLE slaves behind both groups: a request for slave j in cycle t, not aborted, is
      acknowledged in cycle t+2 with the word slave j drove in cycle t. */
  lemma NestedReturn(ws: seq<nat>, d: nat, l: Layout, init: Dio, n: nat, sio: Layout, sinit: Sio, q: nat,
                     bus: seq<Cycle>, ret: seq<Returns>, single: seq<Returns>, t: nat, j: nat)
    requires Group(ws, d, l) && q < |ws| && ws[q] == NextLg(n)
    requires Nested(n, d, sio, sinit, q, bus, ret, single) && t + 2 <= |bus| && |ret[t + 1]| == |ws|
    requires j < n && Served(bus, t) && bus[t].addr == Shr(l.base[q] + Shl(j, d), d)
    ensures SioStrobe(sio, d, j, Lines(bus, n)[t])
    ensures DioAck(l, d, init, bus, ret, t + 2)
    ensures DioAt(l, d, init, bus, ret, t + 2).data == single[t][j]
  {
    hide Pow2, NextLg, Shr, Shl, DioAt, DioStrobe, SioStrobe, SioAt, Group, SingleGroup, Nested, LayoutOf;
    GroupLengths(ws, d, l);
    NestedShape(n, d, sio, sinit, q, bus, ret, single);
    NestedAddress(ws, d, l, n, sio, q, j);
    DoubleContract(ws, d, l, init, bus, ret, t, q, l.base[q] + Shl(j, d));
    NestedWires(n, d, sio, sinit, q, bus, ret, single, t, j);
  }

  lemma NestedShape(n: nat, d: nat, sio: Layout, init: Sio, q: nat,
                    bus: seq<Cycle>, ret: seq<Returns>, single: seq<Returns>)
    requires Nested(n, d, sio, init, q, bus, ret, single)
    ensures SingleGroup(n, d, sio) && n >= 3 && |bus| == |ret| == |single|
    ensures forall t :: 0 <= t < |single| ==> |single[t]| == n
  {
    hide SingleGroup;
  }

  lemma NestedWires(n: nat, d: nat, sio: Layout, sinit: Sio, q: nat,
                    bus: seq<Cycle>, ret: seq<Returns>, single: seq<Returns>, t: nat, j: nat)
    requires Nested(n, d, sio, sinit, q, bus, ret, single) && t + 1 < |bus| && j < n
    requires bus[t].stb && Lines(bus, n)[t] == j
    ensures SioStrobe(sio, d, j, Lines(bus, n)[t])
    ensures ret[t + 1][q] == single[t][j]
  {
    hide Pow2, NextLg, SioStrobe, SioAt, SingleGroup;
    SioDecode(n, d, sio, j, Lines(bus, n)[t]);
    SingleContract(n, d, sio, sinit, Strobes(bus), Lines(bus, n), single, t, j);
  }
}
