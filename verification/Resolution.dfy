/** Resolving every expression of a design (kveval.cpp), in whatever order entries are
    visited and however often each is tried. */
module Resolution {
  import opened Options
  import opened Expressions

  /** An entry of the nested maps that holds an expression. */
  type Node = nat

  /** An entry holds an expression still as text (given here by what it parses to), then its
      tree, partly defined, and in the end an integer. */
  datatype Cell = Text(ast: Ast) | Pending(ast: Ast) | Done(value: int)

  type State = map<Node, Cell>

  /** The design: each entry's expression as written, and the entry each of its names
      resolves to from where it stands (get_named_kvpair), if any. */
  datatype Design = Design(text: map<Node, Ast>, scope: (Node, string) -> Option<Node>)

  /** The value an entry offers to others: its integer, or the value of a tree that is
      already fully defined (getvalue evaluates such a tree on the spot).  Text offers none. */
  function Offer(c: Cell): Option<int> {
    match c
    case Text(_) => None
    case Done(v) => Some(v)
    case Pending(a) =>
      if !IsDefined(a) then None
      else
        var v := Eval(a);
        if v.Some? then Some(Int32(v.value)) else None
  }

  /** get_named_value from entry n. */
  function Lookup(p: Design, s: State, n: Node, id: string): Option<int> {
    var m := p.scope(n, id);
    if m.Some? && m.value in s then Offer(s[m.value]) else None
  }

  function Scope(p: Design, s: State, n: Node): Env {
    id => Lookup(p, s, n, id)
  }

  /** One visit of an entry by find_any_unevaluated_sub.  Evaluation that C++ leaves
      undefined stops the program, so such a visit has no successor state. */
  ghost predicate Visit(p: Design, s: State, n: Node, s': State) {
    n in s &&
    if s[n].Done? then s' == s
    else
      var b := Define(s[n].ast, Scope(p, s, n));
      if !IsDefined(b) then s' == s[n := Pending(b)]
      else Eval(b).Some? && s' == s[n := Done(Int32(Eval(b).value))]
  }

  /** Every expression is as written, some of them perhaps parsed. */
  ghost predicate Initial(p: Design, s: State) {
    && s.Keys == p.text.Keys
    && forall n :: n in s ==> s[n] == Text(Copy(p.text[n])) || s[n] == Pending(Copy(p.text[n]))
  }

  /** A run: any finite sequence of visits. */
  ghost predicate Reachable(p: Design, s: State, steps: nat)
    decreases steps
  {
    if steps == 0 then Initial(p, s)
    else exists t, n :: Reachable(p, t, steps - 1) && Visit(p, t, n, s)
  }

  // ----- recursive evaluation, the meaning of the design -----

  /** The value of entry n found by evaluating names recursively to depth k, if any. */
  function Value(p: Design, n: Node, k: nat): Option<int>
    decreases k, 1
  {
    if k == 0 || n !in p.text then None
    else if forall id | id in Names(p.text[n]) :: ValueOf(p, n, id, k - 1).Some? then
      var v := EvalIn(p.text[n], id => ValueOf(p, n, id, k - 1));
      if v.Some? then Some(Int32(v.value)) else None
    else None
  }

  function ValueOf(p: Design, n: Node, id: string, k: nat): Option<int>
    decreases k, 2
  {
    var m := p.scope(n, id);
    if m.Some? then Value(p, m.value, k) else None
  }

  ghost predicate Means(p: Design, n: Node, v: int) {
    exists k: nat :: Value(p, n, k) == Some(v)
  }

  lemma {:induction false} EvalSame(a: Ast, e: Env, f: Env)
    requires forall id :: id in Names(a) ==> e(id) == f(id)
    ensures EvalIn(a, e) == EvalIn(a, f)
  {
    match a
    case Branch(op, l, r) => EvalSame(l, e, f); EvalSame(r, e, f);
    case Single(op, v) => EvalSame(v, e, f);
    case Tri(c, l, r) => EvalSame(c, e, f); EvalSame(l, e, f); EvalSame(r, e, f);
    case Number(_) =>
    case Ident(id, _) =>
  }

  /** A value found at some depth is found at every greater depth. */
  lemma {:induction false} ValueDeeper(p: Design, n: Node, j: nat, k: nat)
    requires j <= k && Value(p, n, j).Some?
    ensures Value(p, n, k) == Value(p, n, j)
    decreases j
  {
    var a := p.text[n];
    var e: Env, f: Env := id => ValueOf(p, n, id, j - 1), id => ValueOf(p, n, id, k - 1);
    forall id | id in Names(a) ensures ValueOf(p, n, id, k - 1) == ValueOf(p, n, id, j - 1) {
      assert ValueOf(p, n, id, j - 1).Some?;
      ValueDeeper(p, p.scope(n, id).value, j - 1, k - 1);
    }
    EvalSame(a, e, f);
  }

  /** An entry has at most one meaning. */
  lemma MeaningUnique(p: Design, n: Node, v: int, w: int)
    requires Means(p, n, v) && Means(p, n, w)
    ensures v == w
  {
    var j: nat :| Value(p, n, j) == Some(v);
    var k: nat :| Value(p, n, k) == Some(w);
    if j <= k { ValueDeeper(p, n, j, k); } else { ValueDeeper(p, n, k, j); }
  }

  /** The environment of meanings: what each name stands for from entry n. */
  ghost function Meaning(p: Design, n: Node): Env {
    (id: string) =>
      var m := p.scope(n, id);
      if m.Some? && exists v :: Means(p, m.value, v) then
        var v :| Means(p, m.value, v);
        Some(v)
      else None
  }

  lemma MeaningIs(p: Design, n: Node, id: string, v: int)
    requires p.scope(n, id).Some? && Means(p, p.scope(n, id).value, v)
    ensures Meaning(p, n)(id) == Some(v)
  {
    var w := Meaning(p, n)(id).value;
    MeaningUnique(p, p.scope(n, id).value, v, w);
  }

  /** If every name of an entry's expression has a meaning, so does the entry. */
  lemma MeaningOfEntry(p: Design, n: Node, v: int)
    requires n in p.text && Covers(Meaning(p, n), Names(p.text[n]))
    requires EvalIn(p.text[n], Meaning(p, n)) == Some(v)
    ensures Means(p, n, Int32(v))
  {
    var a := p.text[n];
    var k := CommonDepth(p, n, Names(a));
    var e: Env := id => ValueOf(p, n, id, k);
    forall id | id in Names(a) ensures e(id) == Meaning(p, n)(id) && ValueOf(p, n, id, k).Some? {
      var w := ValueOf(p, n, id, k).value;
      assert Value(p, p.scope(n, id).value, k) == Some(w);
      MeaningIs(p, n, id, w);
    }
    EvalSame(a, e, Meaning(p, n));
    assert Value(p, n, k + 1) == Some(Int32(v)) by {
      EvalSame(a, id => ValueOf(p, n, id, k), e);
    }
  }

  /** A depth that is enough for finitely many names at once. */
  lemma {:induction false} CommonDepth(p: Design, n: Node, names: set<string>) returns (k: nat)
    requires Covers(Meaning(p, n), names)
    ensures forall id :: id in names ==> ValueOf(p, n, id, k).Some?
  {
    if names == {} {
      k := 0;
    } else {
      var id :| id in names;
      var rest := names - {id};
      var j := CommonDepth(p, n, rest);
      assert Meaning(p, n)(id).Some?;
      var m := p.scope(n, id).value;
      var v :| Means(p, m, v);
      var i: nat :| Value(p, m, i) == Some(v);
      k := if i <= j then j else i;
      ValueDeeper(p, m, i, k);
      forall x | x in names ensures ValueOf(p, n, x, k).Some? {
        if x != id {
          assert x in rest;
          ValueDeeper(p, p.scope(n, x).value, j, k);
        }
      }
    }
  }

  // ----- soundness -----

  /** Every integer in the state is a meaning, and every identifier already found in a
      pending tree holds the meaning of its name. */
  ghost predicate Sound(p: Design, s: State) {
    && s.Keys == p.text.Keys
    && forall n :: n in s ==> SoundCell(p, n, s[n])
  }

  ghost predicate SoundCell(p: Design, n: Node, c: Cell)
    requires n in p.text
  {
    match c
    case Done(v) => Means(p, n, v)
    case Text(a) => a == Copy(p.text[n])
    case Pending(a) => Copy(a) == Copy(p.text[n]) && Agrees(a, Meaning(p, n))
  }

  /** In a sound state, what a lookup finds is a meaning. */
  lemma LookupSound(p: Design, s: State, n: Node)
    requires Sound(p, s)
    ensures Extends(Scope(p, s, n), Meaning(p, n))
  {
    forall id | Scope(p, s, n)(id).Some? ensures Meaning(p, n)(id) == Scope(p, s, n)(id) {
      var m := p.scope(n, id).value;
      var v := Scope(p, s, n)(id).value;
      OfferSound(p, m, s[m], v);
      MeaningIs(p, n, id, v);
    }
  }

  lemma OfferSound(p: Design, m: Node, c: Cell, v: int)
    requires m in p.text && SoundCell(p, m, c) && Offer(c) == Some(v)
    ensures Means(p, m, v)
  {
    if c.Pending? {
      DefinedMeans(p, m, c.ast);
    }
  }

  /** A fully defined tree that agrees with the meanings evaluates to the entry's meaning. */
  lemma DefinedMeans(p: Design, n: Node, a: Ast)
    requires n in p.text && Copy(a) == Copy(p.text[n]) && Agrees(a, Meaning(p, n))
    requires IsDefined(a) && Eval(a).Some?
    ensures Means(p, n, Int32(Eval(a).value))
  {
    var env := Meaning(p, n);
    NothingToDefine(a, env);
    DefineAgrees(a, env, env);
    CopyForgets(a, env);
    CopyForgets(p.text[n], env);
    MeaningOfEntry(p, n, Eval(a).value);
  }

  lemma {:induction false} NothingToDefine(a: Ast, env: Env)
    requires IsDefined(a)
    ensures Define(a, env) == a
  {
    match a
    case Branch(op, l, r) => NothingToDefine(l, env); NothingToDefine(r, env);
    case Single(op, v) => NothingToDefine(v, env);
    case Tri(c, l, r) => NothingToDefine(c, env); NothingToDefine(l, env); NothingToDefine(r, env);
    case Number(_) =>
    case Ident(id, _) =>
  }

  lemma VisitSound(p: Design, s: State, n: Node, s': State)
    requires Sound(p, s) && Visit(p, s, n, s')
    ensures Sound(p, s')
  {
    if !s[n].Done? {
      var a := s[n].ast;
      var b := Define(a, Scope(p, s, n));
      LookupSound(p, s, n);
      CopyForgets(p.text[n], Meaning(p, n));
      DefineAgrees(a, Scope(p, s, n), Meaning(p, n));
      if IsDefined(b) {
        DefinedMeans(p, n, b);
      }
      assert SoundCell(p, n, s'[n]);
    }
  }

  /** Soundness over every run: whatever order entries are visited in, an expression that
      has been replaced by an integer was replaced by the value of recursive evaluation. */
  lemma {:induction false} ResolutionSound(p: Design, s: State, steps: nat)
    requires Reachable(p, s, steps)
    ensures Sound(p, s)
    decreases steps
  {
    if steps == 0 {
      forall n | n in s ensures SoundCell(p, n, s[n]) {
        CopyForgets(p.text[n], Meaning(p, n));
      }
    } else {
      var t, n :| Reachable(p, t, steps - 1) && Visit(p, t, n, s);
      ResolutionSound(p, t, steps - 1);
      VisitSound(p, t, n, s);
    }
  }

  // ----- completeness and order independence -----

  /** No visit changes anything any more. */
  ghost predicate Settled(p: Design, s: State) {
    forall n :: n in s ==> Visit(p, s, n, s)
  }

  /** A settled state has found every meaning there is. */
  lemma {:induction false} SettledIsComplete(p: Design, s: State, n: Node, k: nat)
    requires Sound(p, s) && Settled(p, s) && Value(p, n, k).Some?
    ensures n in s && s[n] == Done(Value(p, n, k).value)
    decreases k
  {
    hide Define, EvalIn, Eval, IsDefined, Agrees, Copy;
    assert n in s && Visit(p, s, n, s);
    assert Means(p, n, Value(p, n, k).value);
    if !s[n].Done? {
      var a, env := s[n].ast, Scope(p, s, n);
      forall id | id in Names(p.text[n]) ensures env(id).Some? {
        assert ValueOf(p, n, id, k - 1).Some?;
        SettledIsComplete(p, s, p.scope(n, id).value, k - 1);
      }
      LookupSound(p, s, n);
      CopyForgets(a, env);
      CopyForgets(p.text[n], env);
      CopyForgets(p.text[n], Meaning(p, n));
      DefineAgrees(a, env, Meaning(p, n));
    } else {
      assert SoundCell(p, n, s[n]);
      MeaningUnique(p, n, s[n].value, Value(p, n, k).value);
    }
  }

  /** Two runs that have settled have resolved the same entries to the same integers. */
  lemma OrderIndependent(p: Design, s: State, i: nat, t: State, j: nat, n: Node)
    requires Reachable(p, s, i) && Reachable(p, t, j) && Settled(p, s) && Settled(p, t)
    ensures s.Keys == t.Keys
    ensures n in s && s[n].Done? ==> t[n] == s[n]
  {
    ResolutionSound(p, s, i);
    ResolutionSound(p, t, j);
    if n in s && s[n].Done? {
      assert SoundCell(p, n, s[n]);
      var k: nat :| Value(p, n, k) == Some(s[n].value);
      SettledIsComplete(p, t, n, k);
    }
  }

  // ----- termination -----

  function Missing(a: Ast): nat {
    match a
    case Branch(_, l, r) => Missing(l) + Missing(r)
    case Single(_, v) => Missing(v)
    case Tri(c, l, r) => Missing(c) + Missing(l) + Missing(r)
    case Number(_) => 0
    case Ident(_, found) => if found.Some? then 0 else 1
  }

  function CellWork(c: Cell): nat {
    match c
    case Done(_) => 0
    case Text(a) => 2 + Missing(a)
    case Pending(a) => 1 + Missing(a)
  }

  ghost function Pick(ns: set<Node>): (n: Node)
    requires ns != {}
    ensures n in ns
  {
    var n :| n in ns;
    n
  }

  ghost function Work(s: State, ns: set<Node>): nat {
    if ns == {} then 0
    else (if Pick(ns) in s then CellWork(s[Pick(ns)]) else 0) + Work(s, ns - {Pick(ns)})
  }

  lemma {:induction false} DefineShrinks(a: Ast, env: Env)
    ensures Missing(Define(a, env)) <= Missing(a)
    ensures Define(a, env) != a ==> Missing(Define(a, env)) < Missing(a)
  {
    match a
    case Branch(op, l, r) => DefineShrinks(l, env); DefineShrinks(r, env);
    case Single(op, v) => DefineShrinks(v, env);
    case Tri(c, l, r) => DefineShrinks(c, env); DefineShrinks(l, env); DefineShrinks(r, env);
    case Number(_) =>
    case Ident(id, found) =>
  }

  lemma {:induction false} WorkUpdate(s: State, s': State, n: Node, ns: set<Node>)
    requires n in s && n in s' && s' == s[n := s'[n]] && CellWork(s'[n]) < CellWork(s[n])
    ensures Work(s', ns) <= Work(s, ns)
    ensures n in ns ==> Work(s', ns) < Work(s, ns)
  {
    if ns != {} {
      WorkUpdate(s, s', n, ns - {Pick(ns)});
    }
  }

  /** Every visit that changes the state uses up work, so no run changes it forever. */
  lemma VisitsTerminate(p: Design, s: State, n: Node, s': State)
    requires Visit(p, s, n, s') && s' != s
    ensures Work(s', s.Keys) < Work(s, s.Keys)
  {
    var a := s[n].ast;
    DefineShrinks(a, Scope(p, s, n));
    WorkUpdate(s, s', n, s.Keys);
  }

  // ----- the loop of find_any_unevaluated -----

  /** A visit or a scan either stops the program or leaves a state and a "changed" flag. */
  datatype Outcome = Stop | Go(state: State, changed: bool)

  /** The flag is raised when a text is parsed or a tree is replaced by an integer. */
  function VisitOne(p: Design, s: State, n: Node): (r: Outcome)
    requires n in s
    ensures r.Go? ==> Visit(p, s, n, r.state) && r.state.Keys == s.Keys
  {
    if s[n].Done? then Go(s, false)
    else
      var b := Define(s[n].ast, Scope(p, s, n));
      if !IsDefined(b) then Go(s[n := Pending(b)], s[n].Text?)
      else
        var v := Eval(b);
        if v.None? then Stop else Go(s[n := Done(Int32(v.value))], true)
  }

  /** find_any_unevaluated_sub on the entries of one top-level map, in iteration order. */
  function VisitList(p: Design, s: State, ns: seq<Node>): (r: Outcome)
    requires forall n :: n in ns ==> n in s
    ensures r.Go? ==> r.state.Keys == s.Keys
  {
    if ns == [] then Go(s, false)
    else
      var r := VisitList(p, s, ns[..|ns| - 1]);
      if r.Stop? then Stop
      else
        var q := VisitOne(p, r.state, ns[|ns| - 1]);
        if q.Stop? then Stop else Go(q.state, q.changed || r.changed)
  }

  /** Every entry of every map is in the state. */
  ghost predicate Covered(s: State, maps: seq<seq<Node>>) {
    forall ns, n :: ns in maps && n in ns ==> n in s
  }

  /** One round over all top-level maps.  The source assigns the flag of each map over that
      of the one before, so only the last map's flag survives. */
  function Round(p: Design, s: State, maps: seq<seq<Node>>): (r: Outcome)
    requires Covered(s, maps)
    ensures r.Go? ==> r.state.Keys == s.Keys
  {
    if maps == [] then Go(s, false)
    else
      var r := Round(p, s, maps[..|maps| - 1]);
      if r.Stop? then Stop else VisitList(p, r.state, maps[|maps| - 1])
  }

  /** Every other entry sees the same values in both states. */
  ghost predicate SameOffers(s: State, t: State) {
    s.Keys == t.Keys && forall n :: n in s ==> Offer(s[n]) == Offer(t[n])
  }

  /** Visiting n would change nothing. */
  ghost predicate Stable(p: Design, s: State, n: Node) {
    && n in s && !s[n].Text?
    && (s[n].Pending? ==> !IsDefined(s[n].ast) && Define(s[n].ast, Scope(p, s, n)) == s[n].ast)
  }

  lemma {:induction false} DefineSame(a: Ast, e: Env, f: Env)
    requires forall id :: e(id) == f(id)
    ensures Define(a, e) == Define(a, f) && Define(Define(a, e), f) == Define(a, e)
  {
    match a
    case Branch(op, l, r) => DefineSame(l, e, f); DefineSame(r, e, f);
    case Single(op, v) => DefineSame(v, e, f);
    case Tri(c, l, r) => DefineSame(c, e, f); DefineSame(l, e, f); DefineSame(r, e, f);
    case Number(_) =>
    case Ident(id, _) =>
  }

  /** A visit that reports no change leaves its entry stable and disturbs no other. */
  lemma QuietVisit(p: Design, s: State, n: Node, m: Node)
    requires n in s && VisitOne(p, s, n).Go? && !VisitOne(p, s, n).changed
    ensures SameOffers(s, VisitOne(p, s, n).state) && Stable(p, VisitOne(p, s, n).state, n)
    ensures Stable(p, s, m) ==> Stable(p, VisitOne(p, s, n).state, m)
  {
    var t := VisitOne(p, s, n).state;
    if s[n].Pending? {
      forall k | k in s ensures Offer(s[k]) == Offer(t[k]) {
        if k == n { NotYetDefined(s[n].ast, Scope(p, s, n)); }
      }
      DefineSame(s[n].ast, Scope(p, s, n), Scope(p, t, n));
    }
    if Stable(p, s, m) && m != n && s[m].Pending? {
      DefineSame(s[m].ast, Scope(p, s, m), Scope(p, t, m));
    }
  }

  lemma NotYetDefined(a: Ast, env: Env)
    requires !IsDefined(Define(a, env))
    ensures !IsDefined(a)
  {
  }

  /** A scan that reports no change leaves every entry it visited stable. */
  lemma {:induction false} QuietScan(p: Design, s: State, ns: seq<Node>)
    requires forall n :: n in ns ==> n in s
    requires VisitList(p, s, ns).Go? && !VisitList(p, s, ns).changed
    ensures forall n :: n in ns ==> Stable(p, VisitList(p, s, ns).state, n)
  {
    if ns != [] {
      var init, last := ns[..|ns| - 1], ns[|ns| - 1];
      QuietScan(p, s, init);
      var r := VisitList(p, s, init);
      forall m | m in ns ensures Stable(p, VisitOne(p, r.state, last).state, m) {
        QuietVisit(p, r.state, last, m);
        assert m in init || m == last;
      }
    }
  }

  lemma {:induction false} ScanSound(p: Design, s: State, ns: seq<Node>)
    requires Sound(p, s) && forall n :: n in ns ==> n in s
    ensures VisitList(p, s, ns).Go? ==> Sound(p, VisitList(p, s, ns).state)
  {
    if ns != [] {
      ScanSound(p, s, ns[..|ns| - 1]);
      var r := VisitList(p, s, ns[..|ns| - 1]);
      if r.Go? && VisitOne(p, r.state, ns[|ns| - 1]).Go? {
        VisitSound(p, r.state, ns[|ns| - 1], VisitOne(p, r.state, ns[|ns| - 1]).state);
      }
    }
  }

  lemma {:induction false} ScanWork(p: Design, s: State, ns: seq<Node>)
    requires forall n :: n in ns ==> n in s
    ensures VisitList(p, s, ns).Go? ==>
      Work(VisitList(p, s, ns).state, s.Keys) <= Work(s, s.Keys) - (if VisitList(p, s, ns).changed then 1 else 0)
  {
    if ns != [] {
      ScanWork(p, s, ns[..|ns| - 1]);
      var r := VisitList(p, s, ns[..|ns| - 1]);
      if r.Go? {
        var q := VisitOne(p, r.state, ns[|ns| - 1]);
        if q.Go? && q.state != r.state { VisitsTerminate(p, r.state, ns[|ns| - 1], q.state); }
      }
    }
  }

  lemma {:induction false} RoundFacts(p: Design, s: State, maps: seq<seq<Node>>)
    requires Sound(p, s) && Covered(s, maps)
    ensures Round(p, s, maps).Go? ==> Sound(p, Round(p, s, maps).state)
    ensures Round(p, s, maps).Go? ==>
      Work(Round(p, s, maps).state, s.Keys) <= Work(s, s.Keys) - (if Round(p, s, maps).changed then 1 else 0)
  {
    if maps != [] {
      var init, last := maps[..|maps| - 1], maps[|maps| - 1];
      assert last in maps;
      RoundFacts(p, s, init);
      var r := Round(p, s, init);
      if r.Go? {
        ScanSound(p, r.state, last);
        ScanWork(p, r.state, last);
      }
    }
  }

  // ----- when the loop settles -----

  /** All entries, in the order one round visits them. */
  function Flat(maps: seq<seq<Node>>): seq<Node> {
    if maps == [] then [] else Flat(maps[..|maps| - 1]) + maps[|maps| - 1]
  }

  /** The entries of all maps but the last. */
  function Front(maps: seq<seq<Node>>): seq<Node>
    requires maps != []
  {
    Flat(maps[..|maps| - 1])
  }

  ghost predicate NoRepeats(ns: seq<Node>) {
    forall i, j :: 0 <= i < j < |ns| ==> ns[i] != ns[j]
  }

  /** Every entry of the design is in exactly one place of one map. */
  ghost predicate Arranged(p: Design, maps: seq<seq<Node>>) {
    NoRepeats(Flat(maps)) && forall n :: n in Flat(maps) <==> n in p.text
  }

  ghost predicate HasMeaning(p: Design, n: Node) {
    exists v :: Means(p, n, v)
  }

  ghost predicate Refers(p: Design, n: Node, m: Node) {
    n in p.text && exists id :: id in Names(p.text[n]) && p.scope(n, id) == Some(m)
  }

  /** The entries still held as text. */
  function Texts(s: State): (r: set<Node>)
    ensures forall n :: n in r <==> n in s && s[n].Text?
  {
    set n | n in s && s[n].Text?
  }

  /** The entry at i needs the one at j, which is visited later and offers nothing before it is:
      it may still be text, or it has to be worked out from other entries. */
  ghost predicate Late(p: Design, texts: set<Node>, order: seq<Node>, i: nat, j: nat) {
    && i < j < |order| && Refers(p, order[i], order[j]) && HasMeaning(p, order[j])
    && Unready(p, texts, order[j])
  }

  ghost predicate Unready(p: Design, texts: set<Node>, n: Node) {
    n in p.text && (n in texts || Names(p.text[n]) != {})
  }

  ghost predicate NoneLate(p: Design, texts: set<Node>, maps: seq<seq<Node>>) {
    maps != [] ==> forall i, j :: !Late(p, texts, Front(maps), i, j)
  }

  lemma {:induction false} ScanConcat(p: Design, s: State, a: seq<Node>, b: seq<Node>)
    requires forall n :: n in a + b ==> n in s
    ensures forall n :: n in a || n in b ==> n in s
    ensures VisitList(p, s, a + b) ==
      match VisitList(p, s, a)
      case Stop => Stop
      case Go(t, v) =>
        (match VisitList(p, t, b) case Stop => Stop case Go(u, w) => Go(u, w || v))
  {
    assert forall n :: n in a || n in b ==> n in a + b;
    if b == [] {
      assert a + b == a;
    } else {
      var k := |b| - 1;
      assert (a + b)[..|a + b| - 1] == a + b[..k];
      assert forall n :: n in a + b[..k] ==> n in a + b;
      ScanConcat(p, s, a, b[..k]);
    }
  }

  /** A round visits the maps' entries one after another. */
  lemma {:induction false} RoundIsScan(p: Design, s: State, maps: seq<seq<Node>>)
    requires Covered(s, maps)
    ensures forall n :: n in Flat(maps) ==> n in s
    ensures Round(p, s, maps).Stop? <==> VisitList(p, s, Flat(maps)).Stop?
    ensures Round(p, s, maps).Go? ==> Round(p, s, maps).state == VisitList(p, s, Flat(maps)).state
  {
    if maps != [] {
      var init, last := maps[..|maps| - 1], maps[|maps| - 1];
      assert last in maps;
      RoundIsScan(p, s, init);
      ScanConcat(p, s, Flat(init), last);
    }
  }

  lemma {:induction false} CoveredFlat(s: State, maps: seq<seq<Node>>)
    requires forall n :: n in Flat(maps) ==> n in s
    ensures Covered(s, maps)
  {
    if maps != [] {
      var init, last := maps[..|maps| - 1], maps[|maps| - 1];
      assert forall n :: n in Flat(init) || n in last ==> n in Flat(maps);
      CoveredFlat(s, init);
      forall ns, n | ns in maps && n in ns ensures n in s {
        if ns != last { assert ns in init; }
      }
    }
  }

  /** Defining looks at nothing but the names of the expression. */
  lemma {:induction false} DefineByNames(a: Ast, e: Env, f: Env)
    requires forall id :: id in Names(a) ==> e(id) == f(id)
    ensures Define(a, e) == Define(a, f)
  {
    match a
    case Branch(op, l, r) => DefineByNames(l, e, f); DefineByNames(r, e, f);
    case Single(op, v) => DefineByNames(v, e, f);
    case Tri(c, l, r) => DefineByNames(c, e, f); DefineByNames(l, e, f); DefineByNames(r, e, f);
    case Number(_) =>
    case Ident(id, _) =>
  }

  lemma {:induction false} NamelessIsDefined(a: Ast)
    requires Names(a) == {}
    ensures IsDefined(a)
  {
    match a
    case Branch(op, l, r) => NamelessIsDefined(l); NamelessIsDefined(r);
    case Single(op, v) => NamelessIsDefined(v);
    case Tri(c, l, r) => NamelessIsDefined(c); NamelessIsDefined(l); NamelessIsDefined(r);
    case Number(_) =>
    case Ident(id, _) =>
  }

  lemma TextNames(p: Design, n: Node, a: Ast)
    requires n in p.text && Copy(a) == Copy(p.text[n])
    ensures Names(a) == Names(p.text[n])
  {
    CopyForgets(a, id => None);
    CopyForgets(p.text[n], id => None);
  }

  /** A visit leaves its own entry stable. */
  lemma VisitStable(p: Design, s: State, n: Node)
    requires n in s && VisitOne(p, s, n).Go?
    ensures Stable(p, VisitOne(p, s, n).state, n)
  {
    var t := VisitOne(p, s, n).state;
    if t[n].Pending? {
      if s[n].Pending? { NotYetDefined(s[n].ast, Scope(p, s, n)); }
      DefineSame(s[n].ast, Scope(p, s, n), Scope(p, t, n));
    }
  }

  /** A visit that gives n its value disturbs a stable entry m only if m needs n, and n was
      text or had to be worked out from other entries. */
  lemma VisitKeepsStable(p: Design, texts: set<Node>, s: State, n: Node, m: Node)
    requires Sound(p, s) && Texts(s) <= texts && n in s && m != n && VisitOne(p, s, n).Go? && Stable(p, s, m)
    requires !(Refers(p, m, n) && HasMeaning(p, n) && Unready(p, texts, n))
    ensures Stable(p, VisitOne(p, s, n).state, m)
  {
    var t := VisitOne(p, s, n).state;
    if !VisitOne(p, s, n).changed {
      QuietVisit(p, s, n, m);
    } else if s[m].Pending? && t[n].Pending? {
      DefineSame(s[m].ast, Scope(p, s, m), Scope(p, t, m));
    } else if s[m].Pending? {
      VisitSound(p, s, n, t);
      assert SoundCell(p, n, t[n]);
      var a, c := s[n].ast, s[m].ast;
      TextNames(p, m, c);
      CopyForgets(p.text[n], id => None);
      TextNames(p, n, a);
      if Names(a) == {} {
        NamelessIsDefined(a);
        NothingToDefine(a, Scope(p, s, n));
      }
      DefineByNames(c, Scope(p, s, m), Scope(p, t, m));
    }
  }

  /** Without late needs, everything visited is stable afterwards. */
  lemma {:induction false} ScanStable(p: Design, texts: set<Node>, s: State, order: seq<Node>)
    requires Sound(p, s) && Texts(s) <= texts && NoRepeats(order) && forall n :: n in order ==> n in s
    requires VisitList(p, s, order).Go? && forall i, j :: !Late(p, texts, order, i, j)
    ensures Sound(p, VisitList(p, s, order).state) && Texts(VisitList(p, s, order).state) <= texts
    ensures forall n :: n in order ==> Stable(p, VisitList(p, s, order).state, n)
  {
    ScanSound(p, s, order);
    ScanKeeps(p, s, order);
    if order != [] {
      var k := |order| - 1;
      var init, n := order[..k], order[k];
      forall i, j ensures !Late(p, texts, init, i, j) {
        assert !Late(p, texts, order, i, j);
      }
      ScanStable(p, texts, s, init);
      var t := VisitList(p, s, init).state;
      VisitStable(p, t, n);
      forall m | m in order ensures Stable(p, VisitOne(p, t, n).state, m) {
        if m != n {
          var i :| 0 <= i < |order| && order[i] == m;
          assert m == init[i];
          assert !Late(p, texts, order, i, k);
          VisitKeepsStable(p, texts, t, n, m);
        }
      }
    }
  }

  /** A quiet scan keeps what was stable before it. */
  lemma {:induction false} QuietScanKeeps(p: Design, s: State, ns: seq<Node>, m: Node)
    requires forall n :: n in ns ==> n in s
    requires VisitList(p, s, ns).Go? && !VisitList(p, s, ns).changed && Stable(p, s, m)
    ensures Stable(p, VisitList(p, s, ns).state, m)
  {
    if ns != [] {
      var init := ns[..|ns| - 1];
      QuietScanKeeps(p, s, init, m);
      QuietVisit(p, VisitList(p, s, init).state, ns[|ns| - 1], m);
    }
  }

  lemma StableSettles(p: Design, s: State)
    requires forall n :: n in s ==> Stable(p, s, n)
    ensures Settled(p, s)
  {
    forall n | n in s ensures Visit(p, s, n, s) {
      assert Stable(p, s, n);
      if s[n].Pending? { assert s[n := Pending(s[n].ast)] == s; }
    }
  }

  /** If nothing is needed late, a round whose last map reports no change has settled. */
  lemma QuietRoundSettles(p: Design, texts: set<Node>, s: State, maps: seq<seq<Node>>)
    requires Sound(p, s) && Texts(s) <= texts && Arranged(p, maps) && maps != [] && Covered(s, maps)
    requires NoneLate(p, texts, maps)
    requires Round(p, s, maps).Go? && !Round(p, s, maps).changed
    ensures Settled(p, Round(p, s, maps).state)
  {
    hide Stable, Late;
    var init, last := maps[..|maps| - 1], maps[|maps| - 1];
    assert last in maps;
    RoundIsScan(p, s, init);
    var order := Flat(init);
    assert Flat(maps) == order + last && Front(maps) == order;
    forall i, j | 0 <= i < j < |order| ensures order[i] != order[j] {
      assert Flat(maps)[i] == order[i] && Flat(maps)[j] == order[j];
    }
    ScanStable(p, texts, s, order);
    var t := VisitList(p, s, order).state;
    QuietScan(p, t, last);
    var r := VisitList(p, t, last).state;
    forall n | n in r ensures Stable(p, r, n) {
      assert n in Flat(maps);
      if n !in last { QuietScanKeeps(p, t, last, n); }
    }
    StableSettles(p, r);
  }

  /** The do-while loop of find_any_unevaluated; ok is false if evaluation stopped it.  It
      always ends, keeps the state sound and every integer, and leaves the last map's entries
      stable; if nothing is needed late, given what is text at the start, it has settled. */
  method FindAnyUnevaluated(p: Design, s0: State, maps: seq<seq<Node>>) returns (s: State, ok: bool)
    requires Sound(p, s0) && Covered(s0, maps)
    ensures Sound(p, s) && KeepsValues(s0, s)
    ensures ok && maps != [] ==> forall n :: n in maps[|maps| - 1] ==> Stable(p, s, n)
    ensures ok && Arranged(p, maps) && NoneLate(p, Texts(s0), maps) ==> Settled(p, s)
  {
    hide Stable, Settled, Arranged, NoneLate, KeepsValues;
    s, ok := s0, true;
    var changed := true;
    ValuesStay(s);
    while changed
      invariant Sound(p, s) && s.Keys == s0.Keys && KeepsValues(s0, s) && ok
      invariant !changed && maps != [] ==> forall n :: n in maps[|maps| - 1] ==> Stable(p, s, n)
      invariant !changed && maps != [] && Arranged(p, maps) && NoneLate(p, Texts(s0), maps) ==> Settled(p, s)
      decreases Work(s, s.Keys), changed
    {
      var r := Round(p, s, maps);
      RoundFacts(p, s, maps);
      if r.Stop? { return s, false; }
      RoundKeeps(p, s, maps);
      ValuesChain(s0, s, r.state);
      if maps != [] && !r.changed {
        var init, last := maps[..|maps| - 1], maps[|maps| - 1];
        assert last in maps;
        QuietScan(p, Round(p, s, init).state, last);
        if Arranged(p, maps) && NoneLate(p, Texts(s0), maps) {
          TextsShrink(s0, s);
          QuietRoundSettles(p, Texts(s0), s, maps);
        }
      }
      s, changed := r.state, r.changed;
    }
    if maps == [] && Arranged(p, maps) { NothingToSettle(p, s); }
  }

  lemma NothingToSettle(p: Design, s: State)
    requires Sound(p, s) && Arranged(p, [])
    ensures Settled(p, s)
  {
    assert s.Keys == p.text.Keys;
    assert p.text.Keys == {};
  }

  /** No integer changes, nothing becomes text, and no entry appears or disappears. */
  ghost predicate KeepsValues(s: State, t: State) {
    s.Keys == t.Keys && forall n :: n in s && (s[n].Done? || t[n].Text?) ==> t[n] == s[n]
  }

  lemma TextsShrink(s: State, t: State)
    requires KeepsValues(s, t)
    ensures Texts(t) <= Texts(s)
  {
  }

  lemma ValuesStay(s: State)
    ensures KeepsValues(s, s)
  {
  }

  lemma ValuesChain(s: State, t: State, u: State)
    requires KeepsValues(s, t) && KeepsValues(t, u)
    ensures KeepsValues(s, u)
  {
  }

  lemma {:induction false} ScanKeeps(p: Design, s: State, ns: seq<Node>)
    requires (forall n :: n in ns ==> n in s) && VisitList(p, s, ns).Go?
    ensures KeepsValues(s, VisitList(p, s, ns).state)
  {
    if ns != [] { ScanKeeps(p, s, ns[..|ns| - 1]); }
  }

  lemma {:induction false} RoundKeeps(p: Design, s: State, maps: seq<seq<Node>>)
    requires Covered(s, maps) && Round(p, s, maps).Go?
    ensures KeepsValues(s, Round(p, s, maps).state)
  {
    RoundIsScan(p, s, maps);
    ScanKeeps(p, s, Flat(maps));
  }

  // ----- and when it does not -----

  /** Evaluation traps on no entry: one whose names all have meanings has one too. */
  ghost predicate Untrapped(p: Design) {
    forall n :: n in p.text && Covers(Meaning(p, n), Names(p.text[n])) ==> HasMeaning(p, n)
  }

  /** Every entry with a meaning is resolved but n and m, no other entry is, and none of them
      is text. */
  ghost predicate AllBut(p: Design, s: State, n: Node, m: Node) {
    Sound(p, s) && forall x :: x in s && x != n && x != m ==> !s[x].Text? && (s[x].Done? <==> HasMeaning(p, x))
  }

  ghost function ValueFor(p: Design, n: Node): (v: int)
    requires HasMeaning(p, n)
    ensures Means(p, n, v)
  {
    var v :| Means(p, n, v);
    v
  }

  /** The entry offers nothing, as text or as a tree with names to find. */
  ghost predicate Silent(p: Design, texts: set<Node>, s: State, m: Node) {
    && m in s && Unready(p, texts, m)
    && s[m] == if m in texts then Text(Copy(p.text[m])) else Pending(Copy(p.text[m]))
  }

  /** Such a state, with n as parsed and m silent. */
  ghost function Before(p: Design, texts: set<Node>, n: Node, m: Node): (s: State)
    requires n in p.text && n != m && Unready(p, texts, m)
    ensures AllBut(p, s, n, m) && s[n] == Pending(Copy(p.text[n])) && Silent(p, texts, s, m)
    ensures Texts(s) <= texts
  {
    var s := map x | x in p.text ::
      if x != n && x != m && HasMeaning(p, x) then Done(ValueFor(p, x))
      else if x == m && m in texts then Text(Copy(p.text[x]))
      else Pending(Copy(p.text[x]));
    assert Sound(p, s) by {
      forall x | x in s ensures SoundCell(p, x, s[x]) {
        CopyForgets(p.text[x], Meaning(p, x));
      }
    }
    s
  }

  /** The names of a tree not yet found. */
  function Open(a: Ast): set<string> {
    match a
    case Branch(_, l, r) => Open(l) + Open(r)
    case Single(_, v) => Open(v)
    case Tri(c, l, r) => Open(c) + Open(l) + Open(r)
    case Number(_) => {}
    case Ident(id, found) => if found.Some? then {} else {id}
  }

  lemma {:induction false} OpenFacts(a: Ast, env: Env)
    ensures Open(Copy(a)) == Names(a)
    ensures IsDefined(a) <==> Open(a) == {}
    ensures forall id :: id in Open(Define(a, env)) <==> id in Open(a) && env(id).None?
  {
    match a
    case Branch(op, l, r) => OpenFacts(l, env); OpenFacts(r, env);
    case Single(op, v) => OpenFacts(v, env);
    case Tri(c, l, r) => OpenFacts(c, env); OpenFacts(l, env); OpenFacts(r, env);
    case Number(_) =>
    case Ident(id, _) =>
  }

  /** An entry with all its names found has a meaning. */
  lemma DefinedHasMeaning(p: Design, s: State, n: Node)
    requires Sound(p, s) && Untrapped(p) && n in s && s[n].Pending?
    requires IsDefined(Define(s[n].ast, Scope(p, s, n)))
    ensures HasMeaning(p, n)
  {
    LookupSound(p, s, n);
    DefineAgrees(s[n].ast, Scope(p, s, n), Meaning(p, n));
    TextNames(p, n, s[n].ast);
  }

  /** Visiting any entry but the two changes neither them nor the flag. */
  lemma VisitOther(p: Design, s: State, n: Node, m: Node, x: Node)
    requires AllBut(p, s, n, m) && Untrapped(p) && n in s && m in s && x in s && x != n && x != m
    ensures var r := VisitOne(p, s, x);
      r.Go? && !r.changed && AllBut(p, r.state, n, m) && r.state[n] == s[n] && r.state[m] == s[m]
  {
    if s[x].Pending? {
      if IsDefined(Define(s[x].ast, Scope(p, s, x))) { DefinedHasMeaning(p, s, x); }
      VisitSound(p, s, x, VisitOne(p, s, x).state);
    }
  }

  lemma {:induction false} ScanOthers(p: Design, s: State, n: Node, m: Node, ns: seq<Node>)
    requires AllBut(p, s, n, m) && Untrapped(p) && n in s && m in s
    requires forall x :: x in ns ==> x in s && x != n && x != m
    ensures var r := VisitList(p, s, ns);
      r.Go? && !r.changed && AllBut(p, r.state, n, m) && r.state[n] == s[n] && r.state[m] == s[m]
  {
    hide AllBut, Untrapped;
    if ns != [] {
      ScanOthers(p, s, n, m, ns[..|ns| - 1]);
      VisitOther(p, VisitList(p, s, ns[..|ns| - 1]).state, n, m, ns[|ns| - 1]);
    }
  }

  /** The least depth at which an entry has its value. */
  lemma {:induction false} LeastDepth(p: Design, n: Node, k: nat) returns (j: nat)
    requires Value(p, n, k).Some?
    ensures Value(p, n, j).Some? && j > 0 && forall i: nat :: i < j ==> Value(p, n, i).None?
  {
    if i: nat :| i < k && Value(p, n, i).Some? {
      j := LeastDepth(p, n, i);
    } else {
      j := k;
    }
  }

  /** An entry with a meaning is not worked out from itself, nor from an entry that needs it. */
  lemma NoCycle(p: Design, n: Node, m: Node, y: Node)
    requires HasMeaning(p, m) && Refers(p, n, m) && Refers(p, m, y)
    ensures y != n && y != m && HasMeaning(p, y)
  {
    hide Refers, Value;
    var v :| Means(p, m, v);
    var k: nat :| Value(p, m, k) == Some(v);
    var j := LeastDepth(p, m, k);
    Shallower(p, m, y, j);
    assert Means(p, y, Value(p, y, j - 1).value);
    if y == n { Shallower(p, n, m, j - 1); }
  }

  lemma Shallower(p: Design, n: Node, m: Node, k: nat)
    requires Value(p, n, k).Some? && Refers(p, n, m)
    ensures k > 0 && Value(p, m, k - 1).Some?
  {
    var id :| id in Names(p.text[n]) && p.scope(n, id) == Some(m);
    assert ValueOf(p, n, id, k - 1).Some?;
  }

  /** Visited before m is worked out, n does not find it. */
  lemma VisitEarly(p: Design, texts: set<Node>, s: State, n: Node, m: Node, id: string)
    requires AllBut(p, s, n, m) && n in s && n != m && Silent(p, texts, s, m)
    requires s[n] == Pending(Copy(p.text[n]))
    requires id in Names(p.text[n]) && p.scope(n, id) == Some(m)
    ensures var r := VisitOne(p, s, n);
      r.Go? && AllBut(p, r.state, n, m) && r.state[m] == s[m]
      && r.state[n].Pending? && id in Open(r.state[n].ast)
  {
    var env := Scope(p, s, n);
    OpenFacts(p.text[m], env);
    OpenFacts(Copy(p.text[m]), env);
    OpenFacts(p.text[n], env);
    OpenFacts(Copy(p.text[n]), env);
    OpenFacts(Define(Copy(p.text[n]), env), env);
    VisitSound(p, s, n, VisitOne(p, s, n).state);
  }

  /** When m is visited, everything it needs is there. */
  lemma VisitTarget(p: Design, texts: set<Node>, s: State, n: Node, m: Node)
    requires AllBut(p, s, n, m) && n in s && n != m && HasMeaning(p, m) && Refers(p, n, m)
    requires Silent(p, texts, s, m)
    ensures var r := VisitOne(p, s, m);
      r.Go? && AllBut(p, r.state, n, m) && r.state[m].Done? && r.state[n] == s[n]
  {
    var a, env := Copy(p.text[m]), Scope(p, s, m);
    CopyForgets(p.text[m], Meaning(p, m));
    var v :| Means(p, m, v);
    var k: nat :| Value(p, m, k) == Some(v);
    forall id | id in Names(p.text[m]) ensures env(id).Some? {
      assert ValueOf(p, m, id, k - 1).Some?;
      NoCycle(p, n, m, p.scope(m, id).value);
    }
    LookupSound(p, s, m);
    DefineAgrees(a, env, Meaning(p, m));
    MeaningEvaluates(p, m, k);
    VisitSound(p, s, m, VisitOne(p, s, m).state);
  }

  lemma MeaningEvaluates(p: Design, m: Node, k: nat)
    requires Value(p, m, k).Some?
    ensures EvalIn(p.text[m], Meaning(p, m)).Some?
  {
    var e: Env := id => ValueOf(p, m, id, k - 1);
    forall id | id in Names(p.text[m]) ensures e(id) == Meaning(p, m)(id) {
      assert ValueOf(p, m, id, k - 1).Some?;
      var y := p.scope(m, id).value;
      assert Means(p, y, Value(p, y, k - 1).value);
      MeaningIs(p, m, id, Value(p, y, k - 1).value);
    }
    EvalSame(p.text[m], e, Meaning(p, m));
  }

  /** An unresolved name that stands for a resolved entry is something left to do. */
  lemma LeftBehind(p: Design, s: State, n: Node, m: Node, id: string)
    requires n in s && m in s && s[n].Pending? && id in Open(s[n].ast)
    requires p.scope(n, id) == Some(m) && s[m].Done?
    ensures !Settled(p, s)
  {
    OpenFacts(s[n].ast, Scope(p, s, n));
    assert Scope(p, s, n)(id).Some?;
    assert !Visit(p, s, n, s);
  }

  lemma SplitAt(order: seq<Node>, i: nat, j: nat) returns (a: seq<Node>, b: seq<Node>, c: seq<Node>)
    requires i < j < |order| && NoRepeats(order)
    ensures order == a + [order[i]] + b + [order[j]] + c
    ensures forall x :: x in a || x in b || x in c ==> x in order && x != order[i] && x != order[j]
  {
    a, b, c := order[..i], order[i + 1..j], order[j + 1..];
  }

  /** A need that comes late is left behind: from the state in which all else is resolved, the
      first round works out the later entry after the earlier one was tried. */
  lemma LateScan(p: Design, texts: set<Node>, s: State, order: seq<Node>, i: nat, j: nat)
    requires Late(p, texts, order, i, j) && NoRepeats(order) && Untrapped(p)
    requires forall x :: x in order ==> x in p.text
    requires AllBut(p, s, order[i], order[j]) && Silent(p, texts, s, order[j])
    requires order[i] in s && s[order[i]] == Pending(Copy(p.text[order[i]]))
    ensures forall x :: x in order ==> x in s
    ensures var r := VisitList(p, s, order);
      && r.Go? && AllBut(p, r.state, order[i], order[j]) && r.state[order[j]].Done?
      && r.state[order[i]].Pending?
      && exists id :: id in Open(r.state[order[i]].ast) && p.scope(order[i], id) == Some(order[j])
  {
    hide AllBut, Untrapped, Means, VisitOne, NoRepeats, Unready;
    var n, m := order[i], order[j];
    var id :| id in Names(p.text[n]) && p.scope(n, id) == Some(m);
    KeysOf(p, s, n, m);
    Different(order, i, j);
    var a, b, c := SplitAt(order, i, j);
    ScanOthers(p, s, n, m, a);
    var s1 := VisitList(p, s, a).state;
    KeysOf(p, s1, n, m);
    VisitEarly(p, texts, s1, n, m, id);
    ScanOf(p, s1, n);
    ScanConcat(p, s, a, [n]);
    var s2 := VisitOne(p, s1, n).state;
    KeysOf(p, s2, n, m);
    ScanOthers(p, s2, n, m, b);
    ScanConcat(p, s, a + [n], b);
    var s3 := VisitList(p, s2, b).state;
    KeysOf(p, s3, n, m);
    VisitTarget(p, texts, s3, n, m);
    ScanOf(p, s3, m);
    ScanConcat(p, s, a + [n] + b, [m]);
    var s4 := VisitOne(p, s3, m).state;
    KeysOf(p, s4, n, m);
    ScanOthers(p, s4, n, m, c);
    ScanConcat(p, s, a + [n] + b + [m], c);
  }

  lemma KeysOf(p: Design, s: State, n: Node, m: Node)
    requires AllBut(p, s, n, m)
    ensures s.Keys == p.text.Keys && Sound(p, s)
  {
  }

  lemma Different(order: seq<Node>, i: nat, j: nat)
    requires i < j < |order| && NoRepeats(order)
    ensures order[i] != order[j]
  {
  }

  lemma LateUnsettles(p: Design, texts: set<Node>, maps: seq<seq<Node>>, i: nat, j: nat) returns (s: State)
    requires Arranged(p, maps) && Untrapped(p) && maps != [] && Late(p, texts, Front(maps), i, j)
    ensures Sound(p, s) && Texts(s) <= texts && Covered(s, maps)
    ensures Round(p, s, maps).Go? && !Round(p, s, maps).changed && !Settled(p, Round(p, s, maps).state)
  {
    hide AllBut, Untrapped, Means, Settled, Before, Late;
    var init, last := maps[..|maps| - 1], maps[|maps| - 1];
    var order := Front(maps);
    assert Flat(maps) == order + last;
    LateShape(p, texts, maps, i, j);
    var n, m := order[i], order[j];
    Different(order, i, j);
    s := Before(p, texts, n, m);
    KeysOf(p, s, n, m);
    CoveredFlat(s, maps);
    assert last in maps;
    LateScan(p, texts, s, order, i, j);
    RoundIsScan(p, s, init);
    var t := VisitList(p, s, order).state;
    var id :| id in Open(t[n].ast) && p.scope(n, id) == Some(m);
    KeysOf(p, t, n, m);
    ScanOthers(p, t, n, m, last);
    LeftBehind(p, VisitList(p, t, last).state, n, m, id);
  }

  lemma LateShape(p: Design, texts: set<Node>, maps: seq<seq<Node>>, i: nat, j: nat)
    requires Arranged(p, maps) && maps != [] && Late(p, texts, Front(maps), i, j)
    ensures var order, last := Front(maps), maps[|maps| - 1];
      && i < j < |order| && NoRepeats(order) && (forall x :: x in order || x in last ==> x in p.text)
      && (forall x :: x in last ==> x != order[i] && x != order[j])
      && Unready(p, texts, order[j])
  {
    var order, last := Front(maps), maps[|maps| - 1];
    assert Flat(maps) == order + last;
    forall a, b | 0 <= a < b < |order| ensures order[a] != order[b] {
      assert Flat(maps)[a] == order[a] && Flat(maps)[b] == order[b];
    }
    forall x | x in order || x in last ensures x in p.text {
      assert x in Flat(maps);
    }
    forall x | x in last ensures x != order[i] && x != order[j] {
      var b :| 0 <= b < |last| && last[b] == x;
      assert Flat(maps)[|order| + b] == x && Flat(maps)[i] == order[i] && Flat(maps)[j] == order[j];
    }
  }

  /** The round from s ends the loop. */
  ghost predicate QuietEnd(p: Design, s: State, maps: seq<seq<Node>>)
    requires Covered(s, maps)
  {
    Round(p, s, maps).Go? && !Round(p, s, maps).changed
  }

  /** Exactly when the loop settles from every sound state whose text entries are among the
      given ones.  On a design whose evaluation traps nowhere, every round that ends the loop
      has settled if and only if no entry outside the last map needs one outside it that is
      visited later and may still be text or has to be worked out from others. */
  lemma SettlesIff(p: Design, texts: set<Node>, maps: seq<seq<Node>>)
    requires Arranged(p, maps) && Untrapped(p) && maps != []
    ensures (forall s: State :: Sound(p, s) && Texts(s) <= texts && Covered(s, maps) && QuietEnd(p, s, maps)
              ==> Settled(p, Round(p, s, maps).state))
       <==> NoneLate(p, texts, maps)
  {
    hide Arranged, Untrapped, Settled, Late;
    if NoneLate(p, texts, maps) {
      forall s: State | Sound(p, s) && Texts(s) <= texts && Covered(s, maps) && QuietEnd(p, s, maps)
        ensures Settled(p, Round(p, s, maps).state)
      {
        QuietRoundSettles(p, texts, s, maps);
      }
    } else {
      var i, j :| Late(p, texts, Front(maps), i, j);
      var s := LateUnsettles(p, texts, maps, i, j);
    }
  }

  /** Entry 0 stands for entry 1, entry 1 for entry 2, and entry 2 is 5. */
  function Chain(): Design {
    Design(map[0 := Ident("b", None), 1 := Ident("c", None), 2 := Number(5)],
           (n: Node, id: string) => if n == 0 then Some(1) else Some(2))
  }

  /** The chain with every expression parsed. */
  function ChainStart(): State {
    map[0 := Pending(Ident("b", None)), 1 := Pending(Ident("c", None)), 2 := Pending(Number(5))]
  }

  /** With several maps it need not settle.  Put each entry of the chain in a map of its own,
      followed by a map with nothing to do: the first round resolves entries 1 and 2 but not
      0, the last map reports no change, and the loop ends though entry 0 means 5. */
  lemma LastMapHidesProgress()
    ensures Reachable(Chain(), ChainStart(), 0) && Covered(ChainStart(), [[0], [1], [2], []])
    ensures Round(Chain(), ChainStart(), [[0], [1], [2], []])
         == Go(ChainStart()[1 := Done(5)][2 := Done(5)], false)
    ensures Means(Chain(), 0, 5)
  {
    var s := ChainStart();
    var s1 := s[1 := Done(5)];
    var t := s1[2 := Done(5)];
    assert Initial(Chain(), s);
    ChainVisits(s);
    ChainMeans();
    ScanOf(Chain(), s, 0); ScanOf(Chain(), s, 1); ScanOf(Chain(), s1, 2);
    ChainRounds(s, s1, t);
  }

  /** Entry 0 stands for entry 1, which is the text "5". */
  function Pair(): Design {
    Design(map[0 := Ident("m", None), 1 := Number(5)], (n: Node, id: string) => Some(1))
  }

  function PairStart(): State {
    map[0 := Pending(Ident("m", None)), 1 := Text(Number(5))]
  }

  /** A plain number is enough if it is still text: entry 0 is visited before entry 1 is parsed,
      and the last map hides that anything changed. */
  lemma TextHidesProgress()
    ensures Reachable(Pair(), PairStart(), 0) && Late(Pair(), Texts(PairStart()), [0, 1], 0, 1)
    ensures Covered(PairStart(), [[0], [1], []])
    ensures Round(Pair(), PairStart(), [[0], [1], []]) == Go(PairStart()[1 := Done(5)], false)
  {
    hide Pair, PairStart, Late;
    PairLate();
    PairVisits();
    PairRound(Pair(), PairStart(), PairStart()[1 := Done(5)]);
  }

  lemma PairRound(p: Design, s: State, t: State)
    requires s.Keys == {0, 1} && VisitOne(p, s, 0) == Go(s, false) && VisitOne(p, s, 1) == Go(t, true)
    ensures Covered(s, [[0], [1], []]) && Round(p, s, [[0], [1], []]) == Go(t, false)
  {
    hide VisitOne;
    ScanOf(p, s, 0);
    ScanOf(p, s, 1);
    RoundSnoc(p, s, [], [0]);
    RoundSnoc(p, s, [[0]], [1]);
    RoundSnoc(p, s, [[0], [1]], []);
    assert [] + [[0]] == [[0]] && [[0]] + [[1]] == [[0], [1]];
    var none: seq<Node> := [];
    assert [[0], [1]] + [none] == [[0], [1], none];
  }

  lemma PairLate()
    ensures Initial(Pair(), PairStart()) && Late(Pair(), Texts(PairStart()), [0, 1], 0, 1)
  {
    var p := Pair();
    assert Value(p, 1, 1) == Some(5);
    assert Means(p, 1, 5);
    assert Refers(p, 0, 1) by { assert "m" in Names(p.text[0]); }
  }

  lemma PairVisits()
    ensures PairStart().Keys == {0, 1}
    ensures VisitOne(Pair(), PairStart(), 0) == Go(PairStart(), false)
    ensures VisitOne(Pair(), PairStart(), 1) == Go(PairStart()[1 := Done(5)], true)
  {
    var p, s := Pair(), PairStart();
    assert Scope(p, s, 0)("m") == None;
    assert s[0 := Pending(Ident("m", None))] == s;
  }

  lemma ChainVisits(s: State)
    requires s == ChainStart()
    ensures VisitOne(Chain(), s, 0) == Go(s, false)
    ensures VisitOne(Chain(), s, 1) == Go(s[1 := Done(5)], true)
    ensures VisitOne(Chain(), s[1 := Done(5)], 2) == Go(s[1 := Done(5)][2 := Done(5)], true)
  {
    var p := Chain();
    assert Scope(p, s, 0)("b") == None;
    assert s[0 := Pending(Ident("b", None))] == s;
    assert Scope(p, s, 1)("c") == Some(5);
  }

  lemma ChainRounds(s: State, s1: State, t: State)
    requires s.Keys == s1.Keys == t.Keys == {0, 1, 2}
    requires VisitList(Chain(), s, [0]) == Go(s, false)
    requires VisitList(Chain(), s, [1]) == Go(s1, true)
    requires VisitList(Chain(), s1, [2]) == Go(t, true)
    ensures Covered(s, [[0], [1], [2], []])
    ensures Round(Chain(), s, [[0], [1], [2], []]) == Go(t, false)
  {
    var p := Chain();
    RoundSnoc(p, s, [], [0]);
    RoundSnoc(p, s, [[0]], [1]);
    RoundSnoc(p, s, [[0], [1]], [2]);
    RoundSnoc(p, s, [[0], [1], [2]], []);
    assert [] + [[0]] == [[0]] && [[0]] + [[1]] == [[0], [1]] && [[0], [1]] + [[2]] == [[0], [1], [2]];
    var none: seq<Node> := [];
    assert [[0], [1], [2]] + [none] == [[0], [1], [2], none];
  }

  lemma RoundSnoc(p: Design, s: State, maps: seq<seq<Node>>, ns: seq<Node>)
    requires Covered(s, maps) && forall n :: n in ns ==> n in s
    ensures Covered(s, maps + [ns])
    ensures Round(p, s, maps).Go? ==> Round(p, s, maps + [ns]) == VisitList(p, Round(p, s, maps).state, ns)
  {
    assert (maps + [ns])[..|maps|] == maps;
  }

  lemma ChainMeans()
    ensures Means(Chain(), 0, 5)
  {
    var p := Chain();
    assert Value(p, 2, 1) == Some(5);
    assert ValueOf(p, 1, "c", 1) == Some(5);
    assert Value(p, 1, 2) == Some(5);
    assert ValueOf(p, 0, "b", 2) == Some(5);
    assert Value(p, 0, 3) == Some(5);
  }

  lemma ScanOf(p: Design, s: State, n: Node)
    requires n in s
    ensures VisitList(p, s, [n]) == VisitOne(p, s, n)
  {
    assert [n][..0] == [];
    assert VisitList(p, s, []) == Go(s, false);
  }
}
