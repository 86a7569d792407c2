/** The outermost loop of resolution (kveval.cpp, reeval): evaluate expressions, turn values
    into strings, substitute strings into one another, until a pass reports no change. */
module Reeval {
  import opened Options
  import opened Expressions
  import opened Substitution
  import Resolution
  import opened Replacement

  /** A map entry that is not itself a map.  Entries are numbered. */
  datatype Cell = Str(s: string) | Tree(a: Ast) | Int(v: int)

  type World = map<nat, Cell>

  /** A map used as an expression: where its EXPR, VAL, STR and FORMAT entries are kept. */
  datatype Group = Group(expr: nat, val: nat, str: nat, format: nat)

  predicate Proper(g: Group) {
    g.expr != g.val && g.expr != g.str && g.expr != g.format && g.val != g.str && g.val != g.format && g.str != g.format
  }

  /** parse_ast, and sprintf with a format and an integer. */
  datatype Tools = Tools(parse: string -> Ast, form: (string, int) -> string)

  /** An entry is of the same kind in every map it belongs to. */
  predicate Apart(g: Group, h: Group) {
    g.expr != h.val && g.expr != h.str && g.val != h.str && g.val != h.expr && g.str != h.format
  }

  // ----- resolve_ast_expressions -----

  function GenStr(t: Tools, format: string, v: int): string {
    if |format| > 0 then t.form(format, v) else Decimal(v)
  }

  function FormatOf(w: World, g: Group): string {
    if g.format in w && w[g.format].Str? then w[g.format].s else ""
  }

  /** The EXPR entry once its text has been parsed. */
  function ParseCell(t: Tools, c: Cell): (r: Cell)
    ensures !r.Str?
  {
    if c.Str? then Tree(t.parse(c.s)) else c
  }

  /** The program stops where C++ leaves an evaluation undefined. */
  datatype Outcome = Stop | Go(w: World, changed: bool)

  /** std::map's insert leaves an entry that is already there. */
  function Insert(w: World, k: nat, c: Cell): World {
    if k in w then w else w[k := c]
  }

  /** One activation of the recursive function; Again is its call of itself, after which it
      reports a change. */
  datatype Call = Return(w: World, changed: bool) | Crash | Again(w: World)

  function Activate(t: Tools, w: World, g: Group): Call {
    if g.str in w || g.expr !in w then Return(w, false)
    else if g.val in w && w[g.val].Int? then
      Return(w[g.str := Str(GenStr(t, FormatOf(w, g), w[g.val].v))], true)
    else
      match ParseCell(t, w[g.expr])
      case Tree(a) =>
        if !IsDefined(a) then Return(w[g.expr := Tree(a)], false)
        else
          var x := Eval(a);
          if x.None? then Crash
          else Again(Insert(w[g.expr := Int(Int32(x.value))], g.val, Int(Int32(x.value))))
      case Int(v) => Again(Insert(w, g.val, Int(v)))
  }

  /** What the EXPR of a map evaluates to, if it can be evaluated. */
  function ExprValue(t: Tools, w: World, g: Group): Option<int>
    requires g.expr in w
  {
    match ParseCell(t, w[g.expr])
    case Tree(a) => if IsDefined(a) && Eval(a).Some? then Some(Int32(Eval(a).value)) else None
    case Int(v) => Some(v)
  }

  /** A map without STR whose EXPR has a value but whose VAL is not an integer. */
  predicate Stuck(t: Tools, w: World, g: Group) {
    g.str !in w && g.expr in w && g.val in w && !w[g.val].Int? && ExprValue(t, w, g).Some?
  }

  /** The n-th nested activation, if there are that many. */
  function Nested(t: Tools, w: World, g: Group, n: nat): Option<Call> {
    if n == 0 then Some(Activate(t, w, g))
    else
      var outer := Nested(t, w, g, n - 1);
      if outer.Some? && outer.value.Again? then Some(Activate(t, outer.value.w, g)) else None
  }

  /** The recursion ends exactly on the maps that are not stuck. */
  lemma RecursionEndsIff(t: Tools, w: World, g: Group)
    requires Proper(g)
    ensures (exists n :: Nested(t, w, g, n).Some? && !Nested(t, w, g, n).value.Again?) <==> !Stuck(t, w, g)
  {
    if Stuck(t, w, g) {
      forall n ensures Nested(t, w, g, n).Some? && Nested(t, w, g, n).value.Again? { StuckForever(t, w, g, n); }
    } else {
      var c := Activate(t, w, g);
      assert Nested(t, w, g, 0) == Some(c);
      if c.Again? { assert Nested(t, w, g, 1) == Some(Activate(t, c.w, g)); }
    }
  }

  lemma {:induction false} StuckForever(t: Tools, w: World, g: Group, n: nat)
    requires Proper(g) && Stuck(t, w, g)
    ensures Nested(t, w, g, n).Some? && Nested(t, w, g, n).value.Again?
    ensures Stuck(t, Nested(t, w, g, n).value.w, g)
  {
    if n > 0 { StuckForever(t, w, g, n - 1); }
  }

  /** What the recursion amounts to: EXPR is parsed and evaluated, VAL is its value unless
      there is one already, and STR is VAL as the FORMAT prints it. */
  function Resolved(t: Tools, w: World, g: Group): Outcome {
    if g.str in w || g.expr !in w then Go(w, false)
    else if g.val in w && w[g.val].Int? then
      Go(w[g.str := Str(GenStr(t, FormatOf(w, g), w[g.val].v))], true)
    else
      var e, v := ParseCell(t, w[g.expr]), ExprValue(t, w, g);
      if v.None? then (if IsDefined(e.a) then Stop else Go(w[g.expr := e], false))
      else Go(w[g.expr := Int(v.value)][g.val := Int(v.value)]
               [g.str := Str(GenStr(t, FormatOf(w, g), v.value))], true)
  }

  method ResolveAst(t: Tools, w0: World, g: Group) returns (w: World, changed: bool, ok: bool)
    requires Proper(g) && !Stuck(t, w0, g)
    ensures Resolved(t, w0, g) == if ok then Go(w, changed) else Stop
    decreases g.val !in w0
  {
    w, changed, ok := w0, false, true;
    if g.str in w || g.expr !in w { return; }
    if g.val in w && w[g.val].Int? {
      var strp := GenStr(t, FormatOf(w, g), w[g.val].v);
      return w[g.str := Str(strp)], true, true;
    }
    if w[g.expr].Str? { w := w[g.expr := Tree(t.parse(w[g.expr].s))]; }
    if w[g.expr].Tree? {
      var a := w[g.expr].a;
      if !IsDefined(a) { return; }
      var x := Eval(a);
      if x.None? { ok := false; return; }
      w := w[g.expr := Int(Int32(x.value))];
    }
    w := Insert(w, g.val, w[g.expr]);
    w, changed, ok := ResolveAst(t, w, g);
    changed := true;
  }

  /** What a string prints: the value by the map's FORMAT entry, if that is a text that is not
      empty, and else a numeral for it. */
  ghost predicate PrintsValue(t: Tools, w: World, g: Group, s: string, v: int) {
    if g.format in w && w[g.format].Str? && w[g.format].s != "" then s == t.form(w[g.format].s, v)
    else ReadInt(s) == Some(v)
  }

  /** Exactly the maps that lack a STR and have an EXPR with a value get one.  It prints their
      VAL, which is then that value unless it was an integer before; nothing else changes. */
  lemma StrPrintsVal(t: Tools, w: World, g: Group)
    requires Proper(g) && Resolved(t, w, g).Go?
    ensures var Go(r, changed) := Resolved(t, w, g);
      && (changed <==> g.str !in w && g.expr in w && ((g.val in w && w[g.val].Int?) || ExprValue(t, w, g).Some?))
      && (forall id :: id !in [g.expr, g.val, g.str] ==> (id in r <==> id in w) && (id in w ==> r[id] == w[id]))
    ensures var Go(r, changed) := Resolved(t, w, g); changed ==>
      && g.val in r && r[g.val].Int? && g.str in r && r[g.str].Str?
      && PrintsValue(t, w, g, r[g.str].s, r[g.val].v)
      && (if g.val in w && w[g.val].Int? then r[g.val] == w[g.val] else ExprValue(t, w, g) == Some(r[g.val].v))
  {
    hide Decimal, ReadInt, ParseCell;
    forall v { DecimalReads(v); }
  }

  // ----- the design and its names -----

  /** What get_named_kvpair finds: nothing, one entry, or a whole map. */
  datatype Target = Nothing | One(id: nat) | Whole(g: Group)

  /** `ids` holds every entry the design can have and `named` those a reference can name;
      `scope` looks a key up from where entry n stands, and `evaluate` is one run of
      find_any_unevaluated (module Resolution says what that finds). */
  datatype Design = Design(tools: Tools, groups: seq<Group>, ids: set<nat>, named: set<nat>,
                           scope: (World, nat, string) -> Target, evaluate: World -> Option<World>)

  /** getvalue: VAL if there is one, else an EXPR that can be evaluated. */
  function ValueOf(w: World, g: Group): Option<int> {
    if g.val in w then (if w[g.val].Int? then Some(w[g.val].v) else None)
    else if g.expr !in w then None
    else match w[g.expr]
      case Str(_) => None
      case Tree(a) => if IsDefined(a) && Eval(a).Some? then Some(Int32(Eval(a).value)) else None
      case Int(v) => Some(v)
  }

  /** getstring: the STR of a map, which is built first if it can be. */
  function StringOf(t: Tools, w: World, g: Group): Option<string> {
    match Resolved(t, w, g)
    case Stop => None
    case Go(r, _) => if g.str in r && r[g.str].Str? then Some(r[g.str].s) else None
  }

  /** A map whose STR is built when it is asked for, and whose value is known, offers the two
      as one: the text prints the value. */
  lemma StringIsValue(t: Tools, w: World, g: Group)
    requires Proper(g) && g.str !in w && StringOf(t, w, g).Some? && ValueOf(w, g).Some?
    ensures PrintsValue(t, w, g, StringOf(t, w, g).value, ValueOf(w, g).value)
  {
    hide PrintsValue, GenStr;
    StrPrintsVal(t, w, g);
  }

  function FoundAt(d: Design, w: World, t: Target): Found {
    match t
    case Nothing => Absent
    case One(id) =>
      if id !in w then Absent
      else (match w[id] case Str(s) => Text(s) case Int(v) => Integer(v) case Tree(_) => Unevaluated)
    case Whole(g) => Submap(StringOf(d.tools, w, g), ValueOf(w, g))
  }

  function SourcesAt(d: Design, w: World, id: nat): Sources {
    Sources(key => FoundAt(d, w, d.scope(w, id, key)), d.tools.form)
  }

  /** Evaluation replaces trees and texts by trees and integers, and touches nothing else. */
  ghost predicate Evaluates(w: World, r: World) {
    w.Keys == r.Keys && forall id :: id in w ==> r[id] == w[id] || (!w[id].Int? && !r[id].Str?)
  }

  ghost predicate WellFormed(d: Design) {
    && Prints(d.tools.form)
    && (forall g :: g in d.groups ==> Proper(g) && {g.expr, g.val, g.str, g.format} <= d.ids)
    && (forall g, h :: g in d.groups && h in d.groups ==> Apart(g, h))
    && (forall w, n, key :: InDesign(d, d.scope(w, n, key)))
    && (forall w :: d.evaluate(w).Some? ==> Evaluates(w, d.evaluate(w).value))
  }

  predicate InDesign(d: Design, t: Target) {
    match t
    case Nothing => true
    case One(id) => id in d.named
    case Whole(g) => g in d.groups
  }

  /** The condition under which reeval ends.  In every string, references are regular (see
      Substitution); a string that a reference names does not end in '@'; a FORMAT is plain,
      and a STR makes no reference; and no map with an EXPR but no STR has a VAL that is not
      an integer. */
  ghost predicate Fit(d: Design, w: World) {
    && w.Keys <= d.ids
    && (forall id :: id in w && w[id].Str? ==> Regular(w[id].s))
    && (forall id :: id in d.named && id in w && w[id].Str? ==> EndsWell(w[id].s))
    && (forall g :: g in d.groups ==> FitGroup(w, g))
  }

  ghost predicate FitGroup(w: World, g: Group) {
    && (g.format in w && w[g.format].Str? ==> PlainText(w[g.format].s))
    && (g.str in w && w[g.str].Str? ==> Inert(w[g.str].s))
    && (g.str in w || g.expr !in w || (g.val in w ==> w[g.val].Int?))
  }

  lemma InertIsRegular(s: string)
    requires Inert(s)
    ensures Regular(s) && Marks(s) == 0 && EndsWell(s)
  {
    NoMarks(s);
  }

  /** STR as built from a plain FORMAT is plain. */
  lemma GenStrPlain(t: Tools, w: World, g: Group, v: int)
    requires Prints(t.form) && (g.format in w && w[g.format].Str? ==> PlainText(w[g.format].s))
    ensures '@' !in GenStr(t, FormatOf(w, g), v) && Inert(GenStr(t, FormatOf(w, g), v))
  {
    hide Decimal, Inert;
    var f := FormatOf(w, g);
    assert PlainText(f) ==> '@' !in t.form(f, v);
    DecimalIsPlain(v);
    PlainIsInert(GenStr(t, f, v));
  }

  /** In a fit state every name stands for an inert text. */
  lemma FitIsGentle(d: Design, w: World, id: nat)
    requires WellFormed(d) && Fit(d, w)
    ensures Gentle(SourcesAt(d, w, id))
  {
    hide GenStr, HasMark, Prints, Regular;
    var n := SourcesAt(d, w, id);
    forall key | NamedString(n.find(key)).Some? ensures Inert(NamedString(n.find(key)).value) {
      var t := d.scope(w, id, key);
      assert InDesign(d, t);
      assert n.find(key) == FoundAt(d, w, t);
      if t.Whole? {
        assert FitGroup(w, t.g);
        StringPlain(d.tools, w, t.g);
      }
    }
  }

  lemma StringPlain(t: Tools, w: World, g: Group)
    requires Prints(t.form) && Proper(g) && FitGroup(w, g) && StringOf(t, w, g).Some?
    ensures Inert(StringOf(t, w, g).value)
  {
    hide GenStr, Prints, FormatOf, Inert;
    forall v ensures Inert(GenStr(t, FormatOf(w, g), v)) { GenStrPlain(t, w, g, v); }
  }

  // ----- evaluation is a run of find_any_unevaluated -----

  /** The entries that hold an expression, as Resolution sees them.  The text of an EXPR entry
      stays text until evaluation comes to it. */
  function View(t: Tools, exprs: set<nat>, w: World): Resolution.State {
    map id | id in w && (w[id].Str? ==> id in exprs) ::
      match w[id]
      case Str(s) => Resolution.Text(t.parse(s))
      case Tree(a) => Resolution.Pending(a)
      case Int(v) => Resolution.Done(v)
  }

  /** The world with its expressions as they are in state s. */
  function Back(w: World, s: Resolution.State): World {
    map id | id in w ::
      if id !in s then w[id]
      else (match s[id] case Text(_) => w[id] case Pending(a) => Tree(a) case Done(v) => Int(v))
  }

  /** A state that keeps every value makes a world that evaluation may lead to. */
  lemma RunEvaluates(t: Tools, exprs: set<nat>, w: World, s: Resolution.State)
    requires Resolution.KeepsValues(View(t, exprs, w), s)
    ensures Evaluates(w, Back(w, s)) && View(t, exprs, Back(w, s)) == s
  {
    assert s.Keys == View(t, exprs, w).Keys;
  }

  /** find_any_unevaluated on a world does what reeval's loop relies on; the expressions end
      up sound, and settled if nothing is needed late, given what is text at the start. */
  method Evaluate(t: Tools, exprs: set<nat>, p: Resolution.Design, w: World, maps: seq<seq<nat>>)
    returns (r: World, ok: bool)
    requires Resolution.Sound(p, View(t, exprs, w)) && Resolution.Covered(View(t, exprs, w), maps)
    ensures Evaluates(w, r) && Resolution.Sound(p, View(t, exprs, r))
    ensures var s := View(t, exprs, w);
      ok && Resolution.Arranged(p, maps) && Resolution.NoneLate(p, Resolution.Texts(s), maps) ==>
        Resolution.Settled(p, View(t, exprs, r))
  {
    hide Evaluates, View, Back;
    var s;
    s, ok := Resolution.FindAnyUnevaluated(p, View(t, exprs, w), maps);
    RunEvaluates(t, exprs, w, s);
    r := Back(w, s);
  }

  // ----- what a pass uses up -----

  /** The references still in entry id. */
  function Weight(w: World, id: nat): nat {
    if id in w && w[id].Str? then Marks(w[id].s) else 0
  }

  ghost function Load(w: World, ids: set<nat>): nat {
    if ids == {} then 0 else Weight(w, Resolution.Pick(ids)) + Load(w, ids - {Resolution.Pick(ids)})
  }

  lemma {:induction false} LoadFalls(w: World, r: World, ids: set<nat>, id: nat)
    requires forall k :: k in ids ==> Weight(r, k) <= Weight(w, k)
    ensures Load(r, ids) <= Load(w, ids)
    ensures id in ids && Weight(r, id) < Weight(w, id) ==> Load(r, ids) < Load(w, ids)
  {
    hide Weight;
    if ids != {} { LoadFalls(w, r, ids - {Resolution.Pick(ids)}, id); }
  }

  /** Maps that do not have their STR yet. */
  function Bare(w: World, gs: seq<Group>): nat {
    if gs == [] then 0 else (if gs[0].str in w then 0 else 1) + Bare(w, gs[1..])
  }

  lemma {:induction false} BareFalls(w: World, r: World, gs: seq<Group>, g: Group)
    requires w.Keys <= r.Keys
    ensures Bare(r, gs) <= Bare(w, gs)
    ensures g in gs && g.str !in w && g.str in r ==> Bare(r, gs) < Bare(w, gs)
  {
    if gs != [] { BareFalls(w, r, gs[1..], g); }
  }

  ghost function Potential(d: Design, w: World): nat {
    Load(w, d.ids) + Bare(w, d.groups)
  }

  /** No integer changes and no entry disappears. */
  ghost predicate Grows(w: World, r: World) {
    w.Keys <= r.Keys && forall id :: id in w && w[id].Int? ==> r[id] == w[id]
  }

  // ----- one step -----

  /** A step of a pass, in whatever order the maps are walked.  A lookup that builds the STR
      of a map on the way is a Resolve step of its own.  Only what the walk does at top level
      is reported: what nested calls return is dropped. */
  datatype Step = Resolve(g: Group, reported: bool) | Subst(id: nat, reported: bool)

  ghost function Take(d: Design, w: World, a: Step): Outcome
    requires WellFormed(d) && Fit(d, w)
  {
    match a
    case Resolve(g, reported) =>
      if g !in d.groups then Go(w, false)
      else
        var r := Resolved(d.tools, w, g);
        if r.Stop? then Stop else Go(r.w, r.changed && reported)
    case Subst(id, reported) =>
      if id !in w || !w[id].Str? then Go(w, false)
      else
        FitIsGentle(d, w, id);
        var r := Substitute(SourcesAt(d, w, id), w[id].s, false);
        if r.Broken? then Stop else Go(w[id := Str(r.text)], r.changed && reported)
  }

  /** Resolving g may evaluate its EXPR and add its VAL and STR; the rest stays. */
  ghost predicate Advances(w: World, r: World, g: Group) {
    && w.Keys <= r.Keys <= w.Keys + {g.val, g.str}
    && forall id :: id in r ==> AdvancesAt(w, r, g, id)
  }

  ghost predicate AdvancesAt(w: World, r: World, g: Group, id: nat)
    requires id in r
  {
    || (id in w && r[id] == w[id])
    || (id == g.expr && id in w && !w[id].Int? && !r[id].Str?)
    || (id == g.val && id !in w && r[id].Int?)
    || (id == g.str && id !in w && r[id].Str? && '@' !in r[id].s)
  }

  lemma ResolvedAdvances(t: Tools, w: World, g: Group)
    requires Proper(g) && Prints(t.form) && FitGroup(w, g) && Resolved(t, w, g).Go?
    ensures var r := Resolved(t, w, g);
      Advances(w, r.w, g) && (r.changed ==> g.str !in w && g.str in r.w)
  {
    hide GenStr, FormatOf, Prints, Inert;
    forall v ensures '@' !in GenStr(t, FormatOf(w, g), v) { GenStrPlain(t, w, g, v); }
  }

  lemma AdvanceFits(d: Design, w: World, r: World, g: Group)
    requires WellFormed(d) && Fit(d, w) && g in d.groups && Advances(w, r, g)
    ensures Fit(d, r) && Grows(w, r)
  {
    hide Prints, Regular, Inert, EndsWell;
    assert {g.expr, g.val, g.str, g.format} <= d.ids;
    forall id | id in r && r[id].Str? ensures Regular(r[id].s) && (id in d.named ==> EndsWell(r[id].s)) {
      assert AdvancesAt(w, r, g, id);
      if '@' !in r[id].s { PlainIsInert(r[id].s); InertIsRegular(r[id].s); }
    }
    forall h | h in d.groups ensures FitGroup(r, h) {
      assert FitGroup(w, h) && Apart(g, h) && Apart(h, g);
      AdvanceGroup(w, r, g, h);
    }
  }

  lemma AdvanceGroup(w: World, r: World, g: Group, h: Group)
    requires Advances(w, r, g) && FitGroup(w, h) && Proper(h) && Apart(g, h) && Apart(h, g)
    ensures FitGroup(r, h)
  {
    hide Inert;
    forall id | id in r && r[id].Str? && '@' !in r[id].s ensures Inert(r[id].s) {
      PlainIsInert(r[id].s);
    }
  }

  lemma AdvanceUses(d: Design, w: World, r: World, g: Group)
    requires g in d.groups && Advances(w, r, g)
    ensures Potential(d, r) + (if g.str !in w && g.str in r then 1 else 0) <= Potential(d, w)
  {
    hide Marks;
    forall id | id in d.ids ensures Weight(r, id) <= Weight(w, id) {
      if id in r && r[id].Str? && '@' !in r[id].s { PlainIsInert(r[id].s); }
    }
    LoadFalls(w, r, d.ids, 0);
    BareFalls(w, r, d.groups, g);
  }

  lemma ResolveStep(d: Design, w: World, g: Group)
    requires WellFormed(d) && Fit(d, w) && g in d.groups && Resolved(d.tools, w, g).Go?
    ensures var r := Resolved(d.tools, w, g);
      && Fit(d, r.w) && Grows(w, r.w)
      && Potential(d, r.w) + (if r.changed then 1 else 0) <= Potential(d, w)
  {
    hide Resolved, Prints, Potential, Grows, Advances;
    assert Proper(g) && FitGroup(w, g);
    var r := Resolved(d.tools, w, g);
    ResolvedAdvances(d.tools, w, g);
    AdvanceFits(d, w, r.w, g);
    AdvanceUses(d, w, r.w, g);
  }

  /** A string without references is left alone. */
  lemma InertIsKept(n: Sources, s: string)
    requires Gentle(n) && Regular(s)
    ensures Inert(s) || '@' !in s ==> Substitute(n, s, false) == Swept(s, false)
  {
    hide Gentle, Regular, ActAt, Substitute;
    if Inert(s) || '@' !in s {
      assert forall i: nat :: MarkAt(s, i) ==> HasMark(s);
      QuietIsKept(n, s);
    }
  }

  lemma SubstStep(d: Design, w: World, id: nat)
    requires WellFormed(d) && Fit(d, w) && id in w && w[id].Str?
    requires Gentle(SourcesAt(d, w, id)) && Substitute(SourcesAt(d, w, id), w[id].s, false).Swept?
    ensures var r := Substitute(SourcesAt(d, w, id), w[id].s, false);
      var x := w[id := Str(r.text)];
      && Fit(d, x) && Grows(w, x)
      && Potential(d, x) + (if r.changed then 1 else 0) <= Potential(d, w)
  {
    hide Substitute, SourcesAt, Gentle, Regular, Marks, Inert, EndsWell, Prints;
    var n, s := SourcesAt(d, w, id), w[id].s;
    var r := Substitute(n, s, false);
    var x := w[id := Str(r.text)];
    SubstituteShrinks(n, s, false);
    InertIsKept(n, s);
    LoadFalls(w, x, d.ids, id);
    BareFalls(w, x, d.groups, Group(0, 0, 0, 0));
    forall g | g in d.groups ensures FitGroup(x, g) {
      assert FitGroup(w, g);
    }
  }

  /** A step that reports a change uses up a reference or a missing STR. */
  lemma StepFacts(d: Design, w: World, a: Step)
    requires WellFormed(d) && Fit(d, w)
    ensures var r := Take(d, w, a); r.Go? ==>
      && Fit(d, r.w) && Grows(w, r.w)
      && Potential(d, r.w) + (if r.changed then 1 else 0) <= Potential(d, w)
  {
    hide Fit, WellFormed, Grows, Potential, Substitute, SourcesAt, Gentle, Resolved;
    if Take(d, w, a).Go? {
      GrowsSelf(w);
      match a
      case Resolve(g, _) => if g in d.groups { ResolveStep(d, w, g); }
      case Subst(id, _) => if id in w && w[id].Str? { FitIsGentle(d, w, id); SubstStep(d, w, id); }
    }
  }

  lemma GrowsSelf(w: World)
    ensures Grows(w, w)
  {
  }

  lemma EvaluateFacts(d: Design, w: World)
    requires WellFormed(d) && Fit(d, w) && d.evaluate(w).Some?
    ensures var r := d.evaluate(w).value;
      Fit(d, r) && Grows(w, r) && Potential(d, r) <= Potential(d, w)
  {
    hide Regular, Marks, Inert, EndsWell, Prints;
    var r := d.evaluate(w).value;
    assert Evaluates(w, r);
    LoadFalls(w, r, d.ids, 0);
    BareFalls(w, r, d.groups, Group(0, 0, 0, 0));
    forall g | g in d.groups ensures FitGroup(r, g) {
      assert FitGroup(w, g);
    }
  }

  // ----- the loop -----

  /** One pass of substitute_any_results. */
  ghost function Pass(d: Design, w: World, steps: seq<Step>): (r: Outcome)
    requires WellFormed(d) && Fit(d, w)
    ensures r.Go? ==> Fit(d, r.w)
  {
    if steps == [] then Go(w, false)
    else
      var r := Pass(d, w, steps[..|steps| - 1]);
      if r.Stop? then Stop
      else
        StepFacts(d, r.w, steps[|steps| - 1]);
        var x := Take(d, r.w, steps[|steps| - 1]);
        if x.Stop? then Stop else Go(x.w, r.changed || x.changed)
  }

  /** Whatever steps a pass consists of: if it reports a change, it has used up a reference or
      a missing STR for good. */
  lemma {:induction false} PassUsesUp(d: Design, w: World, steps: seq<Step>)
    requires WellFormed(d) && Fit(d, w) && Pass(d, w, steps).Go?
    ensures var r := Pass(d, w, steps);
      Grows(w, r.w) && Potential(d, r.w) + (if r.changed then 1 else 0) <= Potential(d, w)
  {
    hide Fit, WellFormed, Potential, Take;
    if steps == [] {
    } else {
      PassUsesUp(d, w, steps[..|steps| - 1]);
      var r := Pass(d, w, steps[..|steps| - 1]);
      StepFacts(d, r.w, steps[|steps| - 1]);
    }
  }

  // ----- what a pass that reports nothing has found -----

  /** A map that has its STR, has no EXPR, or whose EXPR has no value yet. */
  predicate NothingToBuild(t: Tools, w: World, g: Group) {
    g.str in w || g.expr !in w || (!(g.val in w && w[g.val].Int?) && ExprValue(t, w, g).None?)
  }

  /** The strings a step may change on the quiet: those with a format in a reference. */
  ghost predicate HasFormat(w: World, id: nat) {
    id in w && w[id].Str? && !Unformatted(w[id].s)
  }

  /** When a pass reports no change, there was nothing for its reported steps to do: no STR
      to build, and in a string without formats no reference that stood for anything. */
  lemma QuietPassFoundNothing(d: Design, w: World, steps: seq<Step>, k: nat)
    requires WellFormed(d) && Fit(d, w) && k < |steps|
    requires Pass(d, w, steps).Go? && !Pass(d, w, steps).changed
    ensures Pass(d, w, steps[..k]).Go? && Pass(d, w, steps[..k + 1]).Go?
    ensures var r := Pass(d, w, steps[..k]).w;
      match steps[k]
      case Resolve(g, reported) => reported && g in d.groups ==> NothingToBuild(d.tools, r, g)
      case Subst(id, reported) => reported && id in r && r[id].Str? && !HasFormat(r, id) ==>
        Quiet(SourcesAt(d, r, id), r[id].s) && Pass(d, w, steps[..k + 1]).w == r
  {
    hide Fit, WellFormed, Take, Quiet, Unformatted, SourcesAt, NothingToBuild;
    QuietPrefix(d, w, steps, k + 1);
    assert steps[..k + 1][..k] == steps[..k];
    QuietStep(d, Pass(d, w, steps[..k]).w, steps[k]);
  }

  lemma QuietStep(d: Design, w: World, a: Step)
    requires WellFormed(d) && Fit(d, w) && Take(d, w, a).Go? && !Take(d, w, a).changed
    ensures match a
      case Resolve(g, reported) => reported && g in d.groups ==> NothingToBuild(d.tools, w, g)
      case Subst(id, reported) => reported && id in w && w[id].Str? && !HasFormat(w, id) ==>
        Quiet(SourcesAt(d, w, id), w[id].s) && Take(d, w, a).w == w
  {
    hide Fit, Gentle, Regular, Substitute, Quiet, Unformatted, SourcesAt, Resolved, Prints;
    match a
    case Resolve(g, reported) =>
      if reported && g in d.groups { StrPrintsVal(d.tools, w, g); }
    case Subst(id, reported) =>
      if reported && id in w && w[id].Str? && !HasFormat(w, id) {
        FitIsGentle(d, w, id);
        FitIsRegular(d, w, id);
        SilentMeansQuiet(SourcesAt(d, w, id), w[id].s);
        assert w[id := Str(w[id].s)] == w;
      }
  }

  lemma FitIsRegular(d: Design, w: World, id: nat)
    requires Fit(d, w) && id in w && w[id].Str?
    ensures Regular(w[id].s)
  {
  }

  lemma {:induction false} QuietPrefix(d: Design, w: World, steps: seq<Step>, k: nat)
    requires WellFormed(d) && Fit(d, w) && k <= |steps|
    requires Pass(d, w, steps).Go? && !Pass(d, w, steps).changed
    ensures Pass(d, w, steps[..k]).Go? && !Pass(d, w, steps[..k]).changed
    decreases |steps|
  {
    hide Fit, WellFormed, Take;
    if k == |steps| {
      assert steps[..k] == steps;
    } else {
      QuietPrefix(d, w, steps[..|steps| - 1], k);
      assert steps[..|steps| - 1][..k] == steps[..k];
    }
  }

  /** The steps of a pass, one after another. */
  method SubstituteAnyResults(d: Design, w0: World, steps: seq<Step>) returns (w: World, changed: bool, ok: bool)
    requires WellFormed(d) && Fit(d, w0)
    ensures Pass(d, w0, steps) == if ok then Go(w, changed) else Stop
  {
    hide Fit, WellFormed, Take;
    w, changed, ok := w0, false, true;
    for k := 0 to |steps|
      invariant ok && Pass(d, w0, steps[..k]) == Go(w, changed)
    {
      assert steps[..k + 1][..k] == steps[..k];
      var v;
      w, v, ok := TakeStep(d, w, steps[k]);
      if !ok {
        StopStays(d, w0, steps, k + 1);
        return;
      }
      changed := v || changed;
    }
    assert steps[..|steps|] == steps;
  }

  lemma {:induction false} StopStays(d: Design, w: World, steps: seq<Step>, k: nat)
    requires WellFormed(d) && Fit(d, w) && k <= |steps| && Pass(d, w, steps[..k]).Stop?
    ensures Pass(d, w, steps).Stop?
    decreases |steps| - k
  {
    hide Fit, WellFormed, Take;
    if k == |steps| {
      assert steps[..k] == steps;
    } else {
      assert steps[..k + 1][..k] == steps[..k];
      StopStays(d, w, steps, k + 1);
    }
  }

  method TakeStep(d: Design, w0: World, a: Step) returns (w: World, changed: bool, ok: bool)
    requires WellFormed(d) && Fit(d, w0)
    ensures Take(d, w0, a) == if ok then Go(w, changed) else Stop
  {
    hide Substitute, SourcesAt, Gentle, Resolved, Activate;
    w, changed, ok := w0, false, true;
    match a
    case Resolve(g, reported) =>
      if g in d.groups {
        assert FitGroup(w, g);
        w, changed, ok := ResolveAst(d.tools, w, g);
        changed := changed && reported;
      }
    case Subst(id, reported) =>
      if id in w && w[id].Str? {
        FitIsGentle(d, w, id);
        var text;
        text, changed, ok := SubresultsInto(SourcesAt(d, w, id), w[id].s);
        if ok { w := w[id := Str(text)]; }
        changed := changed && reported;
      }
  }

  /** reeval.  `walk` gives the steps of the pass over each state.  From every fit state the
      loop ends, whatever the walk; integers stay, and the last pass reported no change. */
  method Run(d: Design, w0: World, walk: World -> seq<Step>) returns (w: World, ok: bool)
    requires WellFormed(d) && Fit(d, w0)
    ensures Fit(d, w) && Grows(w0, w)
    ensures ok ==> exists v :: Quieted(d, v, walk, w)
  {
    hide Fit, WellFormed, Grows, Potential, Pass;
    w, ok := w0, true;
    GrowsSelf(w);
    var changed := true;
    while changed
      invariant Fit(d, w) && Grows(w0, w) && ok
      invariant !changed ==> exists v :: Quieted(d, v, walk, w)
      decreases Potential(d, w), changed
    {
      var e := d.evaluate(w);
      if e.None? { return w, false; }
      EvaluateFacts(d, w);
      GrowsChain(w0, w, e.value);
      var r;
      r, changed, ok := SubstituteAnyResults(d, e.value, walk(e.value));
      if !ok { return e.value, false; }
      PassUsesUp(d, e.value, walk(e.value));
      GrowsChain(w0, e.value, r);
      assert !changed ==> Quieted(d, e.value, walk, r);
      w := r;
    }
  }

  lemma GrowsChain(w: World, r: World, x: World)
    requires Grows(w, r) && Grows(r, x)
    ensures Grows(w, x)
  {
  }

  /** The last pass took state v to w and reported nothing. */
  ghost predicate Quieted(d: Design, v: World, walk: World -> seq<Step>, w: World) {
    WellFormed(d) && Fit(d, v) && Pass(d, v, walk(v)) == Go(w, false)
  }
}
