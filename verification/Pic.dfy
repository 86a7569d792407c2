/** Class PICINFO: interrupt numbers of one programmable interrupt controller. */
module Pic {
  import opened Options

  // ----- the specification, on the list of ids alone -----

  /** Ids of the listed interrupts in arrival order; `max` itself means "not assigned". */
  type Ids = seq<nat>

  function Assigned(max: nat, ids: Ids): nat {
    if ids == [] then 0
    else Assigned(max, ids[..|ids| - 1]) + (if ids[|ids| - 1] < max then 1 else 0)
  }

  /** add(hash, name): an interrupt without a number. */
  function AddAny(max: nat, ids: Ids): Ids {
    if |ids| >= max then ids else ids + [max]
  }

  /** add(id, hash, name): an interrupt that asks for a number. */
  function AddAt(max: nat, ids: Ids, id: nat): Ids {
    if id >= max || Assigned(max, ids) + 1 > max || id in ids then ids else ids + [id]
  }

  /** Index of the first interrupt without a number, or the length of the list. */
  function FirstUnassigned(max: nat, ids: Ids): (j: nat)
    ensures j <= |ids| && (j < |ids| ==> ids[j] >= max)
    ensures forall i :: 0 <= i < j ==> ids[i] < max
  {
    if ids == [] then 0 else if ids[0] >= max then 0 else 1 + FirstUnassigned(max, ids[1..])
  }

  /** One round of assignids' outer loop. */
  function AssignOne(max: nat, ids: Ids, iid: nat): (r: Ids)
    ensures |r| == |ids|
  {
    var j := FirstUnassigned(max, ids);
    if iid in ids || j == |ids| then ids else ids[j := iid]
  }

  function AssignFrom(max: nat, ids: Ids, iid: nat): (r: Ids)
    requires iid <= max
    ensures |r| == |ids|
    decreases max - iid
  {
    if iid == max then ids else AssignFrom(max, AssignOne(max, ids, iid), iid + 1)
  }

  /** Every number is at most max, and no number below max is given out twice. */
  ghost predicate Consistent(max: nat, ids: Ids) {
    && (forall i :: 0 <= i < |ids| ==> ids[i] <= max)
    && (forall i, j :: 0 <= i < j < |ids| && ids[i] < max ==> ids[i] != ids[j])
  }

  datatype Add = Any | At(id: nat)

  function AfterAdds(max: nat, adds: seq<Add>): Ids {
    if adds == [] then []
    else
      var ids, a := AfterAdds(max, adds[..|adds| - 1]), adds[|adds| - 1];
      if a.Any? then AddAny(max, ids) else AddAt(max, ids, a.id)
  }

  /** Whatever sequence of interrupts is added, the list stays consistent. */
  lemma {:induction false} AddsConsistent(max: nat, adds: seq<Add>)
    ensures Consistent(max, AfterAdds(max, adds))
  {
    if adds != [] { AddsConsistent(max, adds[..|adds| - 1]); }
  }

  /** Explicit numbers are kept; the others lie below iid or are still missing. */
  ghost predicate Kept(max: nat, ids: Ids, r: Ids, iid: nat) {
    && |r| == |ids|
    && (forall j :: 0 <= j < |ids| && ids[j] < max ==> r[j] == ids[j])
    && (forall j :: 0 <= j < |ids| && ids[j] >= max ==> r[j] < iid || r[j] == max)
  }

  /** Unnumbered interrupts have been served in arrival order, with ascending numbers. */
  ghost predicate InOrder(max: nat, ids: Ids, r: Ids) {
    && |r| == |ids|
    && forall j, k :: 0 <= j < k < |ids| && ids[j] >= max && ids[k] >= max && r[k] < max ==> r[j] < r[k]
  }

  /** No number below iid that an unnumbered interrupt could have had is free. */
  ghost predicate NoGaps(max: nat, ids: Ids, r: Ids, iid: nat) {
    && |r| == |ids|
    && forall j, f :: 0 <= j < |ids| && ids[j] >= max && 0 <= f < iid && f < r[j] ==> f in r
  }

  ghost predicate Progress(max: nat, ids: Ids, r: Ids, iid: nat) {
    && Consistent(max, ids) && Consistent(max, r)
    && Kept(max, ids, r, iid) && InOrder(max, ids, r) && NoGaps(max, ids, r, iid)
  }

  lemma OneConsistent(max: nat, r: Ids, iid: nat)
    requires Consistent(max, r) && iid < max
    ensures Consistent(max, AssignOne(max, r, iid))
  {
  }

  lemma OneKept(max: nat, ids: Ids, r: Ids, iid: nat)
    requires Kept(max, ids, r, iid) && iid < max
    ensures Kept(max, ids, AssignOne(max, r, iid), iid + 1)
  {
  }

  lemma OneInOrder(max: nat, ids: Ids, r: Ids, iid: nat)
    requires Kept(max, ids, r, iid) && InOrder(max, ids, r) && iid < max
    ensures InOrder(max, ids, AssignOne(max, r, iid))
  {
  }

  lemma OneNoGaps(max: nat, ids: Ids, r: Ids, iid: nat)
    requires Kept(max, ids, r, iid) && NoGaps(max, ids, r, iid) && Consistent(max, r) && iid < max
    ensures NoGaps(max, ids, AssignOne(max, r, iid), iid + 1)
  {
    var u, s := FirstUnassigned(max, r), AssignOne(max, r, iid);
    forall j, f | 0 <= j < |ids| && ids[j] >= max && 0 <= f < iid + 1 && f < s[j]
      ensures f in s
    {
      if f < iid {
        assert f in r;
        StillThere(max, r, iid, f);
      } else if iid !in r && u < |r| {
        assert s[u] == iid;
      }
    }
  }

  lemma StillThere(max: nat, r: Ids, iid: nat, f: nat)
    requires f in r && f < max
    ensures f in AssignOne(max, r, iid)
  {
  }

  lemma {:induction false} AssignProgress(max: nat, ids: Ids, r: Ids, iid: nat)
    requires Progress(max, ids, r, iid) && iid <= max
    ensures Progress(max, ids, AssignFrom(max, r, iid), max)
    decreases max - iid
  {
    hide AssignOne, Consistent, Kept, InOrder, NoGaps;
    if iid < max {
      OneConsistent(max, r, iid);
      OneKept(max, ids, r, iid);
      OneInOrder(max, ids, r, iid);
      OneNoGaps(max, ids, r, iid);
      AssignProgress(max, ids, AssignOne(max, r, iid), iid + 1);
    }
  }

  /** assignids after any adds: explicit numbers stay; assigned numbers are distinct and
      below PIC.MAX; unnumbered interrupts get ascending numbers in arrival order, each the
      least one still free; and one is left out only if every number is taken. */
  lemma AssignIdsCorrect(max: nat, adds: seq<Add>)
    ensures var ids := AfterAdds(max, adds);
      var r := AssignFrom(max, ids, 0);
      && Consistent(max, r)
      && (forall j :: 0 <= j < |ids| && ids[j] < max ==> r[j] == ids[j])
      && (forall j, k :: 0 <= j < k < |ids| && ids[j] == ids[k] == max && r[k] < max ==> r[j] < r[k])
      && (forall j, f :: 0 <= j < |ids| && ids[j] == max && 0 <= f < r[j] ==> f in r)
  {
    var ids := AfterAdds(max, adds);
    AddsConsistent(max, adds);
    AssignProgress(max, ids, ids, 0);
  }

  // ----- how many get a number -----

  function Numbers(max: nat, ids: Ids): (r: set<nat>)
    ensures forall f :: f in r <==> f < max && f in ids
  {
    set f | f in ids && f < max
  }

  lemma {:induction false} AssignedIsNumbers(max: nat, ids: Ids)
    requires Consistent(max, ids)
    ensures Assigned(max, ids) == |Numbers(max, ids)|
  {
    if ids == [] {
      assert Numbers(max, ids) == {};
    } else {
      var n := |ids| - 1;
      var init, x := ids[..n], ids[n];
      assert ids == init + [x];
      AssignedIsNumbers(max, init);
      if x < max {
        assert x !in init;
        assert Numbers(max, ids) == Numbers(max, init) + {x};
      } else {
        assert Numbers(max, ids) == Numbers(max, init);
      }
    }
  }

  function UpTo(n: nat): (r: set<nat>)
    ensures |r| == n && forall f: int :: f in r <==> 0 <= f < n
  {
    if n == 0 then {} else UpTo(n - 1) + {n - 1}
  }

  lemma {:induction false} AllAssigned(max: nat, ids: Ids)
    requires forall i :: 0 <= i < |ids| ==> ids[i] < max
    ensures Assigned(max, ids) == |ids|
  {
    if ids != [] { AllAssigned(max, ids[..|ids| - 1]); }
  }

  lemma {:induction false} AssignedBelow(max: nat, ids: Ids)
    ensures Assigned(max, ids) <= |ids|
    ensures (exists i :: 0 <= i < |ids| && ids[i] >= max) ==> Assigned(max, ids) < |ids|
  {
    if ids != [] { AssignedBelow(max, ids[..|ids| - 1]); }
  }

  /** The number of interrupts assigned is min(PIC.MAX, number listed). */
  lemma AssignedCount(max: nat, adds: seq<Add>)
    ensures var ids := AfterAdds(max, adds);
      Assigned(max, AssignFrom(max, ids, 0)) == if |ids| < max then |ids| else max
  {
    var ids := AfterAdds(max, adds);
    var r := AssignFrom(max, ids, 0);
    AddsConsistent(max, adds);
    AssignProgress(max, ids, ids, 0);
    AssignedIsNumbers(max, r);
    if w :| 0 <= w < |r| && r[w] >= max {
      assert Numbers(max, r) == UpTo(max);
      AssignedBelow(max, r);
    } else {
      AllAssigned(max, r);
      assert Numbers(max, r) <= UpTo(max);
      SubsetSize(Numbers(max, r), UpTo(max));
    }
  }

  // ----- the class -----

  class IntInfo {
    const name: string
    var id: nat
    constructor (name: string, id: nat)
      ensures this.name == name && this.id == id
    {
      this.name, this.id := name, id;
    }
  }

  class PicInfo {
    const max: nat                 // i_max, from PIC.MAX
    var ilist: seq<IntInfo>        // every interrupt of this controller
    const alist: array<IntInfo?>   // the interrupt with each number, if any
    var nassigned: nat
    var nallocated: nat

    /** List, table and counters agree. */
    ghost predicate Valid()
      reads this, alist, ilist
    {
      && alist.Length == max && nallocated == |ilist|
      && (forall i, j :: 0 <= i < j < |ilist| ==> ilist[i] != ilist[j])
      && (forall i :: 0 <= i < |ilist| ==> ilist[i].id <= max)
      && (forall i :: 0 <= i < |ilist| && ilist[i].id < max ==> alist[ilist[i].id] == ilist[i])
      && (forall k :: 0 <= k < max && alist[k] != null ==> alist[k] in ilist && alist[k].id == k)
      && nassigned == Assigned(max, IdList())
    }

    ghost function IdList(): (r: Ids)
      reads this, ilist
      ensures |r| == |ilist| && forall i :: 0 <= i < |r| ==> r[i] == ilist[i].id
    {
      var il := ilist;
      seq(|il|, i requires 0 <= i < |il| reads il => il[i].id)
    }

    constructor (max: nat)
      ensures Valid() && this.max == max && ilist == [] && fresh(alist)
    {
      this.max := max;
      alist := new IntInfo?[max](_ => null);
      ilist, nassigned, nallocated := [], 0, 0;
      new;
      assert IdList() == [];
    }

    /** A number is free in the table exactly when no listed interrupt has it. */
    lemma TableIsList(k: nat)
      requires Valid() && k < max
      ensures alist[k] == null <==> k !in IdList()
    {
    }

    method AddUnnumbered(name: Option<string>)
      requires Valid()
      modifies this`ilist, this`nallocated
      ensures Valid() && old(ilist) <= ilist && fresh(ilist[|old(ilist)|..])
      ensures forall p :: p in ilist[|old(ilist)|..] ==> name == Some(p.name)
      ensures IdList() == if name.Some? then AddAny(max, old(IdList())) else old(IdList())
    {
      hide Assigned;
      if name.None? { return; }
      if nallocated >= max { return; }
      var ip := new IntInfo(name.value, max);
      ghost var before := IdList();
      ilist := ilist + [ip];
      nallocated := nallocated + 1;
      AssignedSnoc(max, before, max);
      assert IdList() == before + [max];
    }

    method AddNumbered(id: nat, name: Option<string>)
      requires Valid()
      modifies this`ilist, this`nallocated, this`nassigned, alist
      ensures Valid() && old(ilist) <= ilist && fresh(ilist[|old(ilist)|..])
      ensures forall p :: p in ilist[|old(ilist)|..] ==> name == Some(p.name)
      ensures IdList() == if name.Some? then AddAt(max, old(IdList()), id) else old(IdList())
    {
      hide Assigned;
      if name.None? { return; }
      if id >= max { return; }
      if nassigned + 1 > max { return; }
      TableIsList(id);
      if alist[id] != null { return; }
      var ip := new IntInfo(name.value, id);
      ghost var before := IdList();
      ilist := ilist + [ip];
      nassigned := nassigned + 1;
      nallocated := nallocated + 1;
      alist[id] := ip;
      AssignedSnoc(max, before, id);
      assert IdList() == before + [id];
    }

    /** Give the numbers still free to the interrupts still without one. */
    method AssignIds()
      requires Valid()
      modifies this`nassigned, alist, ilist
      ensures Valid() && ilist == old(ilist)
      ensures IdList() == AssignFrom(max, old(IdList()), 0)
    {
      hide IdList, FirstUnassigned;
      for iid := 0 to max
        invariant Valid() && ilist == old(ilist)
        invariant AssignFrom(max, IdList(), iid) == AssignFrom(max, old(IdList()), 0)
      {
        Round(iid);
      }
    }

    method Round(iid: nat)
      requires Valid() && iid < max
      modifies this`nassigned, alist, ilist
      ensures Valid() && IdList() == AssignOne(max, old(IdList()), iid)
    {
      hide Assigned, FirstUnassigned;
      TableIsList(iid);
      if alist[iid] == null {
        var uid := FindUnassigned();
        if uid < |ilist| { Give(uid, iid); }
      }
    }

    /** The inner loop: the first interrupt without a number. */
    method FindUnassigned() returns (uid: nat)
      requires Valid()
      ensures uid == FirstUnassigned(max, IdList())
    {
      ghost var ids := IdList();
      uid := 0;
      while uid < |ilist| && ilist[uid].id < max
        invariant uid <= |ilist|
        invariant FirstUnassigned(max, ids) == uid + FirstUnassigned(max, ids[uid..])
      {
        assert ids[uid..][1..] == ids[uid + 1..];
        uid := uid + 1;
      }
    }

    method Give(uid: nat, iid: nat)
      requires Valid() && iid < max && uid < |ilist| && ilist[uid].id >= max && alist[iid] == null
      modifies this`nassigned, alist, ilist[uid]
      ensures Valid()
      ensures IdList() == old(IdList())[uid := iid]
    {
      hide Assigned;
      ghost var before := IdList();
      TableIsList(iid);
      ilist[uid].id := iid;
      alist[iid] := ilist[uid];
      nassigned := nassigned + 1;
      assert IdList() == before[uid := iid];
      OneMore(max, before, uid, iid);
    }

    /** getint: the interrupt with a given number, if there is one. */
    method GetInt(iid: nat) returns (r: IntInfo?)
      requires Valid()
      ensures r != null <==> iid < max && iid in IdList()
      ensures r != null ==> r in ilist && r.id == iid
    {
      r := null;
      if iid < max {
        TableIsList(iid);
        r := alist[iid];
      }
    }
  }

  lemma AssignedSnoc(max: nat, ids: Ids, id: nat)
    ensures Assigned(max, ids + [id]) == Assigned(max, ids) + (if id < max then 1 else 0)
  {
    assert (ids + [id])[..|ids|] == ids;
  }

  lemma {:induction false} OneMore(max: nat, ids: Ids, uid: nat, iid: nat)
    requires uid < |ids| && ids[uid] >= max && iid < max
    ensures Assigned(max, ids[uid := iid]) == Assigned(max, ids) + 1
  {
    var n := |ids| - 1;
    if uid < n {
      OneMore(max, ids[..n], uid, iid);
      assert ids[uid := iid][..n] == ids[..n][uid := iid];
    } else {
      assert ids[uid := iid][..n] == ids[..n];
    }
  }

  // ----- which adds get on the list -----

  /** A number is taken exactly if some add asked for it, and in range. */
  lemma {:induction false} ExplicitListed(max: nat, adds: seq<Add>, id: nat)
    ensures id in Numbers(max, AfterAdds(max, adds)) <==> id < max && At(id) in adds
  {
    if adds != [] {
      var n := |adds| - 1;
      var ids := AfterAdds(max, adds[..n]);
      assert adds == adds[..n] + [adds[n]];
      ExplicitListed(max, adds[..n], id);
      AddsConsistent(max, adds[..n]);
      if adds[n] == At(id) && id < max { AddTakes(max, ids, id); }
    }
  }

  /** An add in range is dropped only if its number has been given out. */
  lemma AddTakes(max: nat, ids: Ids, id: nat)
    requires Consistent(max, ids) && id < max
    ensures id in AddAt(max, ids, id)
  {
    if Assigned(max, ids) + 1 > max {
      AssignedIsNumbers(max, ids);
      SubsetEqual(Numbers(max, ids), UpTo(max));
      assert id in Numbers(max, ids);
    }
  }

  lemma SubsetEqual(a: set<nat>, b: set<nat>)
    requires a <= b && |a| >= |b|
    ensures a == b
  {
    if x :| x in b && x !in a {
      SubsetSize(a, b - {x});
    }
  }

  /** How many adds ask for no number. */
  function Unnumbered(adds: seq<Add>): nat {
    if adds == [] then 0 else Unnumbered(adds[..|adds| - 1]) + (if adds[|adds| - 1].Any? then 1 else 0)
  }

  /** Every add that asks for no number is listed, unless the list has grown to PIC.MAX, which
      those adds alone never make it exceed. */
  lemma {:induction false} UnnumberedListed(max: nat, adds: seq<Add>)
    ensures var ids := AfterAdds(max, adds); var u := |ids| - Assigned(max, ids);
      && 0 <= u <= max && u <= Unnumbered(adds)
      && (u < Unnumbered(adds) ==> |ids| >= max)
  {
    if adds != [] {
      hide Assigned;
      var n := |adds| - 1;
      var ids := AfterAdds(max, adds[..n]);
      UnnumberedListed(max, adds[..n]);
      AssignedSnoc(max, ids, max);
      if adds[n].At? { AssignedSnoc(max, ids, adds[n].id); }
    } else {
      AssignedSnoc(max, [], max);
    }
  }

  /** One that comes later is listed if and only if there is room for it. */
  lemma NextUnnumbered(max: nat, adds: seq<Add>)
    ensures |AfterAdds(max, adds + [Any])| > |AfterAdds(max, adds)| <==> |AfterAdds(max, adds)| < max
  {
    assert (adds + [Any])[..|adds|] == adds;
  }
}
