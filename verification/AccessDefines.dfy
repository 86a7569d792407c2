/** build_access_ifdefs_v: ordering the `define lines of components that depend on one
    another's ACCESS macros, and what the emitted file then defines. */
module AccessDefines {

  type Macro = string

  /** One word of a DEPENDS tag; a leading '!' asks for the macro to be undefined. */
  datatype Dep = Dep(negated: bool, macro: Macro)

  /** A component with both an ACCESS and a DEPENDS tag. */
  datatype Entry = Entry(access: seq<Macro>, depends: seq<Dep>)

  /** Emitted text: nested ifdef/ifndef lines around some defines. */
  datatype Guarded = Guarded(depends: seq<Dep>, defs: seq<Macro>)

  // ----- the membership test: strstr on one growing string -----

  predicate PrefixAt(hay: string, needle: string, i: nat) {
    i + |needle| <= |hay| && hay[i..i + |needle|] == needle
  }

  /** strstr(hay, needle) != NULL */
  predicate Contains(hay: string, needle: string) {
    exists i: nat :: i <= |hay| && PrefixAt(hay, needle, i)
  }

  /** already_defined: every token with a space before it. */
  function Joined(toks: seq<Macro>): string {
    if toks == [] then "" else Joined(toks[..|toks| - 1]) + " " + toks[|toks| - 1]
  }

  lemma JoinedSnoc(toks: seq<Macro>, t: Macro)
    ensures Joined(toks + [t]) == Joined(toks) + " " + t
  {
    assert (toks + [t])[..|toks|] == toks;
  }

  /** A token that fits between two spaces. */
  predicate Token(t: Macro) {
    t != "" && ' ' !in t
  }

  lemma CharAt(hay: string, t: string, i: nat, p: nat)
    requires PrefixAt(hay, t, i) && i <= p < i + |t|
    ensures hay[p] in t
  {
    assert hay[i..i + |t|][p - i] == hay[p];
  }

  lemma ContainsLeft(a: string, b: string, t: Macro)
    ensures Contains(a, t) ==> Contains(a + b, t)
    ensures Contains(b, t) ==> Contains(a + b, t)
  {
    if i: nat :| i <= |a| && PrefixAt(a, t, i) {
      assert (a + b)[i..i + |t|] == a[i..i + |t|];
      assert PrefixAt(a + b, t, i);
    }
    if i: nat :| i <= |b| && PrefixAt(b, t, i) {
      assert (a + b)[|a| + i..|a| + i + |t|] == b[i..i + |t|];
      assert PrefixAt(a + b, t, |a| + i);
    }
  }

  /** A token found across a space lies on one side of it. */
  lemma ContainsEither(a: string, b: string, t: Macro)
    requires Token(t)
    ensures Contains(a + " " + b, t) <==> Contains(a, t) || Contains(b, t)
  {
    var s := a + " " + b;
    ContainsLeft(a + " ", b, t);
    ContainsLeft(a, " ", t);
    if i: nat :| i <= |s| && PrefixAt(s, t, i) {
      assert s[|a|] == ' ';
      if i <= |a| < i + |t| { CharAt(s, t, i, |a|); }
      OneSide(a, b, t, i);
    }
  }

  lemma OneSide(a: string, b: string, t: Macro, i: nat)
    requires PrefixAt(a + " " + b, t, i) && !(i <= |a| < i + |t|)
    ensures Contains(a, t) || Contains(b, t)
  {
    var s := a + " " + b;
    if i + |t| <= |a| {
      assert a[i..i + |t|] == s[i..i + |t|];
      assert PrefixAt(a, t, i);
    } else {
      var j := i - |a| - 1;
      assert b[j..j + |t|] == s[i..i + |t|];
      assert PrefixAt(b, t, j);
    }
  }

  /** The substring test sees exactly the tokens that contain the one looked for. */
  lemma {:induction false} ContainsJoined(toks: seq<Macro>, t: Macro)
    requires Token(t)
    ensures Contains(Joined(toks), t) <==> exists k :: 0 <= k < |toks| && Contains(toks[k], t)
  {
    if toks == [] {
      assert !Contains("", t);
    } else {
      var init, last := toks[..|toks| - 1], toks[|toks| - 1];
      ContainsJoined(init, t);
      ContainsEither(Joined(init), last, t);
      if k :| 0 <= k < |toks| && Contains(toks[k], t) {
        if k < |toks| - 1 { assert init[k] == toks[k]; }
      }
      if k :| 0 <= k < |init| && Contains(init[k], t) { assert toks[k] == init[k]; }
    }
  }

  lemma ContainsSelf(t: Macro)
    ensures Contains(t, t)
  {
    assert t[0..0 + |t|] == t;
    assert PrefixAt(t, t, 0);
  }

  /** Tokens none of which contains another. */
  ghost predicate Apart(vocabulary: set<Macro>) {
    && (forall t :: t in vocabulary ==> Token(t))
    && forall s, t :: s in vocabulary && t in vocabulary && s != t ==> !Contains(s, t)
  }

  /** Then the substring test is membership. */
  lemma MembershipTest(vocabulary: set<Macro>, toks: seq<Macro>, t: Macro)
    requires Apart(vocabulary) && t in vocabulary && forall k :: 0 <= k < |toks| ==> toks[k] in vocabulary
    ensures Contains(Joined(toks), t) <==> t in toks
  {
    ContainsJoined(toks, t);
    ContainsSelf(t);
    if k :| 0 <= k < |toks| && Contains(toks[k], t) {
      assert toks[k] == t;
    }
    if t in toks {
      var k :| 0 <= k < |toks| && toks[k] == t;
      assert Contains(toks[k], t);
    }
  }

  // ----- the worklist -----

  datatype Work = Work(text: string, rest: seq<Entry>, out: seq<Guarded>)

  predicate Met(text: string, e: Entry) {
    forall k :: 0 <= k < |e.depends| ==> Contains(text, e.depends[k].macro)
  }

  /** The tokens of an ACCESS tag that are not yet in the text, added to it one by one. */
  function Emit(text: string, toks: seq<Macro>): (string, seq<Macro>) {
    if toks == [] then (text, [])
    else
      var (t, defs) := Emit(text, toks[..|toks| - 1]);
      var tok := toks[|toks| - 1];
      if Contains(t, tok) then (t, defs) else (t + " " + tok, defs + [tok])
  }

  function Without(es: seq<Entry>, i: nat): seq<Entry>
    requires i < |es|
  {
    es[..i] + es[i + 1..]
  }

  /** Emit entry i and erase it. */
  function Process(w: Work, i: nat): Work
    requires i < |w.rest|
  {
    var e := w.rest[i];
    var (text, defs) := Emit(w.text, e.access);
    Work(text, Without(w.rest, i), w.out + [Guarded(e.depends, defs)])
  }

  /** Whether processing entry i defines something new. */
  predicate IsNews(w: Work, i: nat)
    requires i < |w.rest|
  {
    Emit(w.text, w.rest[i].access).1 != []
  }

  /** One scan of the list from index i.  After an erase the iterator goes back to the first
      entry, and the for loop's increment then passes over it. */
  function Pass(w: Work, i: nat, done: bool): (Work, bool)
    decreases |w.rest|, |w.rest| - i
  {
    if i >= |w.rest| then (w, done)
    else if !Met(w.text, w.rest[i]) then Pass(w, i + 1, done)
    else
      var w', done' := Process(w, i), done && !IsNews(w, i);
      if w'.rest == [] then (w', done') else Pass(w', 1, done')
  }

  lemma {:induction false} PassShrinks(w: Work, i: nat, done: bool)
    ensures |Pass(w, i, done).0.rest| <= |w.rest|
    ensures done && !Pass(w, i, done).1 ==> |Pass(w, i, done).0.rest| < |w.rest|
    decreases |w.rest|, |w.rest| - i
  {
    if i < |w.rest| {
      if !Met(w.text, w.rest[i]) {
        PassShrinks(w, i + 1, done);
      } else if Process(w, i).rest != [] {
        PassShrinks(Process(w, i), 1, done && !IsNews(w, i));
      }
    }
  }

  function Loop(w: Work): Work
    decreases |w.rest|
  {
    var (w', done) := Pass(w, 0, true);
    PassShrinks(w, 0, true);
    if done || w'.rest == [] then w' else Loop(w')
  }

  /** The worklist on the independent macros and the dependent components. */
  function Resolve(indep: seq<Macro>, deps: seq<Entry>): Work {
    Loop(Work(Joined(indep), deps, []))
  }

  /** Everything emitted after the independent defines: the ordered part, and then what is
      left over, listed "for reference" but in the same guarded form. */
  function Emitted(w: Work): seq<Guarded> {
    w.out + seq(|w.rest|, k requires 0 <= k < |w.rest| => Guarded(w.rest[k].depends, w.rest[k].access))
  }

  method StrStr(hay: string, needle: string) returns (found: bool)
    ensures found == Contains(hay, needle)
  {
    found := false;
    var i := 0;
    while i + |needle| <= |hay|
      invariant !found && forall j: nat :: j < i ==> !PrefixAt(hay, needle, j)
    {
      if hay[i..i + |needle|] == needle {
        assert PrefixAt(hay, needle, i);
        return true;
      }
      i := i + 1;
    }
  }

  /** The source's nested loops. */
  method BuildAccessDefines(indep: seq<Macro>, deps: seq<Entry>) returns (out: seq<Guarded>, rest: seq<Entry>)
    ensures Work(Resolve(indep, deps).text, rest, out) == Resolve(indep, deps)
  {
    var text := "";
    for k := 0 to |indep|
      invariant text == Joined(indep[..k])
    {
      assert indep[..k + 1][..k] == indep[..k];
      text := text + " " + indep[k];
    }
    assert indep[..|indep|] == indep;
    rest, out := deps, [];
    if rest != [] {
      var done := false;
      while !done
        invariant if done then Work(text, rest, out) == Resolve(indep, deps)
                  else Loop(Work(text, rest, out)) == Resolve(indep, deps)
        decreases |rest|, !done
      {
        ghost var start := Work(text, rest, out);
        PassShrinks(start, 0, true);
        text, rest, out, done := OnePass(text, rest, out);
        if rest == [] { done := true; }
      }
    } else {
      assert Pass(Work(text, [], []), 0, true) == (Work(text, [], []), true);
    }
  }

  method OnePass(text0: string, rest0: seq<Entry>, out0: seq<Guarded>)
    returns (text: string, rest: seq<Entry>, out: seq<Guarded>, done: bool)
    ensures (Work(text, rest, out), done) == Pass(Work(text0, rest0, out0), 0, true)
  {
    text, rest, out, done := text0, rest0, out0, true;
    var i := 0;
    while i < |rest|
      invariant Pass(Work(text, rest, out), i, done) == Pass(Work(text0, rest0, out0), 0, true)
      decreases |rest|, |rest| - i
    {
      var e := rest[i];
      var met := CheckDepends(text, e);
      if met {
        var defs;
        ghost var w := Work(text, rest, out);
        text, defs := EmitAccess(text, e.access);
        if defs != [] { done := false; }
        out := out + [Guarded(e.depends, defs)];
        rest := rest[..i] + rest[i + 1..];
        assert Work(text, rest, out) == Process(w, i);
        i := 0;
        if rest == [] { break; }
      }
      i := i + 1;
    }
  }

  method CheckDepends(text: string, e: Entry) returns (met: bool)
    ensures met == Met(text, e)
  {
    for k := 0 to |e.depends|
      invariant forall j :: 0 <= j < k ==> Contains(text, e.depends[j].macro)
    {
      var found := StrStr(text, e.depends[k].macro);
      if !found { return false; }
    }
    return true;
  }

  method EmitAccess(text0: string, toks: seq<Macro>) returns (text: string, defs: seq<Macro>)
    ensures (text, defs) == Emit(text0, toks)
  {
    text, defs := text0, [];
    for k := 0 to |toks|
      invariant (text, defs) == Emit(text0, toks[..k])
    {
      assert toks[..k + 1][..k] == toks[..k];
      var found := StrStr(text, toks[k]);
      if !found { text, defs := text + " " + toks[k], defs + [toks[k]]; }
    }
    assert toks[..|toks|] == toks;
  }

  // ----- running the emitted file -----

  function Names(toks: seq<Macro>): (r: set<Macro>)
    ensures forall t :: t in r <==> t in toks
  {
    set t | t in toks
  }

  predicate GuardHolds(d: set<Macro>, deps: seq<Dep>) {
    forall k :: 0 <= k < |deps| ==> (deps[k].macro in d) != deps[k].negated
  }

  /** Macros defined after running the first k guarded blocks on top of d. */
  function Run(d: set<Macro>, gs: seq<Guarded>, k: nat): set<Macro>
    requires k <= |gs|
  {
    if k == 0 then d
    else
      var before := Run(d, gs, k - 1);
      if GuardHolds(before, gs[k - 1].depends) then before + Names(gs[k - 1].defs) else before
  }

  // ----- the least model of the dependency rules -----

  /** s has everything the rules force: an entry whose dependencies are all in s is in s. */
  ghost predicate Closed(deps: seq<Entry>, s: set<Macro>) {
    forall i :: 0 <= i < |deps| && GuardHolds(s, deps[i].depends) ==> Names(deps[i].access) <= s
  }

  ghost predicate LeastModel(kept: set<Macro>, deps: seq<Entry>, s: set<Macro>) {
    kept <= s && Closed(deps, s) && forall t :: kept <= t && Closed(deps, t) ==> s <= t
  }

  /** What the ordering asks of the components: one provider for each macro, no empty ACCESS
      tag, and no macro name inside another. */
  ghost predicate Clean(indep: seq<Macro>, deps: seq<Entry>, vocabulary: set<Macro>) {
    && Apart(vocabulary) && Names(indep) <= vocabulary
    && (forall i :: 0 <= i < |deps| ==> CleanEntry(deps[i], vocabulary) && Names(indep) !! Names(deps[i].access))
    && OneProvider(deps)
  }

  ghost predicate CleanEntry(e: Entry, vocabulary: set<Macro>) {
    && e.access != [] && Names(e.access) <= vocabulary
    && forall k :: 0 <= k < |e.depends| ==> e.depends[k].macro in vocabulary
  }

  /** No dependency is negated. */
  predicate Positive(deps: seq<Entry>) {
    forall i, x :: 0 <= i < |deps| && 0 <= x < |deps[i].depends| ==> !deps[i].depends[x].negated
  }

  ghost predicate OneProvider(deps: seq<Entry>) {
    forall i, j :: 0 <= i < j < |deps| ==> Names(deps[i].access) !! Names(deps[j].access)
  }

  // ----- invariants of the worklist -----

  /** Macros the first k emitted blocks could define, and the independent ones. */
  function Defined(indep: set<Macro>, out: seq<Guarded>, k: nat): set<Macro>
    requires k <= |out|
  {
    if k == 0 then indep else Defined(indep, out, k - 1) + Names(out[k - 1].defs)
  }

  function Wanted(deps: seq<Dep>): (r: set<Macro>)
    ensures forall k :: 0 <= k < |deps| ==> deps[k].macro in r
  {
    set k | 0 <= k < |deps| :: deps[k].macro
  }

  /** Block g is the emission of entry e. */
  ghost predicate Emits(g: Guarded, e: Entry) {
    g.depends == e.depends && Names(g.defs) == Names(e.access)
  }

  /** Every dependency of a block is defined by an earlier block or is independent, and no
      block defines what an earlier one does. */
  ghost predicate Ordered(indep: set<Macro>, out: seq<Guarded>) {
    forall k :: 0 <= k < |out| ==> Follows(out[k], Defined(indep, out, k))
  }

  ghost predicate Follows(g: Guarded, before: set<Macro>) {
    Wanted(g.depends) <= before && Names(g.defs) !! before
  }

  ghost predicate WasEmitted(e: Entry, out: seq<Guarded>) {
    exists k :: 0 <= k < |out| && Emits(out[k], e)
  }

  ghost predicate Justified(g: Guarded, deps: seq<Entry>) {
    exists i :: 0 <= i < |deps| && Emits(g, deps[i])
  }

  /** Each entry is still in the list or has been emitted, and nothing else has. */
  ghost predicate Accounted(deps: seq<Entry>, rest: seq<Entry>, out: seq<Guarded>) {
    && (forall e :: e in deps ==> e in rest || WasEmitted(e, out))
    && (forall g :: g in out ==> Justified(g, deps))
    && (forall e :: e in rest ==> e in deps)
  }

  /** The state of the worklist after `toks` have been defined. */
  ghost predicate Inv(indep: seq<Macro>, deps: seq<Entry>, voc: set<Macro>, w: Work, toks: seq<Macro>) {
    && w.text == Joined(toks) && Names(toks) == Defined(Names(indep), w.out, |w.out|)
    && Names(toks) <= voc && Apart(voc) && OneProvider(w.rest)
    && (forall i :: 0 <= i < |w.rest| ==> CleanEntry(w.rest[i], voc) && Names(toks) !! Names(w.rest[i].access))
    && Ordered(Names(indep), w.out) && Accounted(deps, w.rest, w.out)
  }

  /** Emitting an ACCESS tag of new tokens adds just those tokens. */
  lemma {:induction false} EmitFresh(voc: set<Macro>, toks: seq<Macro>, access: seq<Macro>)
    returns (defs: seq<Macro>)
    requires Apart(voc) && Names(toks) <= voc && Names(access) <= voc && Names(toks) !! Names(access)
    ensures Emit(Joined(toks), access) == (Joined(toks + defs), defs)
    ensures Names(defs) == Names(access)
  {
    hide Contains, Joined, Apart;
    if access == [] {
      defs := [];
      assert toks + [] == toks;
    } else {
      var init, t := access[..|access| - 1], access[|access| - 1];
      assert access == init + [t];
      assert Names(init) <= Names(access) && t in Names(access);
      defs := EmitFresh(voc, toks, init);
      forall k | 0 <= k < |toks + defs| ensures (toks + defs)[k] in voc {
        assert (toks + defs)[k] in Names(toks) || (toks + defs)[k] in Names(defs);
      }
      MembershipTest(voc, toks + defs, t);
      JoinedSnoc(toks + defs, t);
      if t in toks + defs {
        assert t !in Names(toks);
        assert t in Names(defs);
      } else {
        assert (toks + defs) + [t] == toks + (defs + [t]);
        defs := defs + [t];
      }
    }
  }

  lemma {:induction false} DefinedPrefix(indep: set<Macro>, out: seq<Guarded>, g: Guarded, k: nat)
    requires k <= |out|
    ensures Defined(indep, out + [g], k) == Defined(indep, out, k)
  {
    if k > 0 { DefinedPrefix(indep, out, g, k - 1); }
  }

  /** A met dependency is defined. */
  lemma MetIsDefined(voc: set<Macro>, toks: seq<Macro>, e: Entry)
    requires Apart(voc) && Names(toks) <= voc && CleanEntry(e, voc)
    ensures Met(Joined(toks), e) <==> Wanted(e.depends) <= Names(toks)
  {
    forall k | 0 <= k < |toks| ensures toks[k] in voc { assert toks[k] in Names(toks); }
    forall k | 0 <= k < |e.depends|
      ensures Contains(Joined(toks), e.depends[k].macro) <==> e.depends[k].macro in Names(toks)
    {
      MembershipTest(voc, toks, e.depends[k].macro);
    }
    if Wanted(e.depends) <= Names(toks) {
      forall k | 0 <= k < |e.depends| ensures Contains(Joined(toks), e.depends[k].macro) {
        assert e.depends[k].macro in Wanted(e.depends);
      }
    }
  }

  lemma OrderedSnoc(indep: set<Macro>, out: seq<Guarded>, g: Guarded)
    requires Ordered(indep, out) && Follows(g, Defined(indep, out, |out|))
    ensures Ordered(indep, out + [g])
    ensures Defined(indep, out + [g], |out| + 1) == Defined(indep, out, |out|) + Names(g.defs)
  {
    hide Follows, Names, Wanted, Defined;
    var out' := out + [g];
    forall k | 0 <= k < |out'| ensures Follows(out'[k], Defined(indep, out', k)) {
      DefinedPrefix(indep, out, g, k);
    }
    DefinedPrefix(indep, out, g, |out|);
    DefinedSnoc(indep, out, g);
  }

  lemma DefinedSnoc(indep: set<Macro>, out: seq<Guarded>, g: Guarded)
    ensures Defined(indep, out + [g], |out| + 1) == Defined(indep, out + [g], |out|) + Names(g.defs)
  {
  }

  lemma AccountedStep(deps: seq<Entry>, rest: seq<Entry>, out: seq<Guarded>, i: nat, g: Guarded)
    requires Accounted(deps, rest, out) && i < |rest| && Emits(g, rest[i])
    ensures Accounted(deps, Without(rest, i), out + [g])
  {
    hide Emits;
    var out' := out + [g];
    assert out'[|out|] == g;
    assert rest == rest[..i] + [rest[i]] + rest[i + 1..];
    forall e | e in deps ensures e in Without(rest, i) || WasEmitted(e, out') {
      if WasEmitted(e, out) {
        var k :| 0 <= k < |out| && Emits(out[k], e);
        assert Emits(out'[k], e);
      } else if e == rest[i] {
        assert Emits(out'[|out|], e);
      }
    }
    forall h | h in out' ensures Justified(h, deps) {
      if h == g {
        assert rest[i] in rest;
        var x :| 0 <= x < |deps| && deps[x] == rest[i];
        assert Emits(h, deps[x]);
      }
    }
  }

  /** Processing a met entry keeps the invariant and always defines something new. */
  lemma ProcessKeeps(indep: seq<Macro>, deps: seq<Entry>, voc: set<Macro>, w: Work, toks: seq<Macro>, i: nat)
    returns (toks': seq<Macro>)
    requires Inv(indep, deps, voc, w, toks) && i < |w.rest| && Met(w.text, w.rest[i])
    ensures Inv(indep, deps, voc, Process(w, i), toks')
    ensures IsNews(w, i)
  {
    hide Contains, Met, Ordered, Accounted, Apart, CleanEntry, OneProvider, Emit;
    var e := w.rest[i];
    var defs := EmitNews(voc, w, toks, i);
    toks' := toks + defs;
    var g := Guarded(e.depends, defs);
    NamesConcat(toks, defs);
    MetIsDefined(voc, toks, e);
    OrderedSnoc(Names(indep), w.out, g);
    AccountedStep(deps, w.rest, w.out, i, g);
    WithoutApart(voc, w.rest, toks, i);
    WithoutOneProvider(w.rest, i);
  }

  lemma NamesConcat(a: seq<Macro>, b: seq<Macro>)
    ensures Names(a + b) == Names(a) + Names(b)
  {
  }

  lemma EmitNews(voc: set<Macro>, w: Work, toks: seq<Macro>, i: nat) returns (defs: seq<Macro>)
    requires Apart(voc) && Names(toks) <= voc && w.text == Joined(toks)
    requires i < |w.rest| && CleanEntry(w.rest[i], voc) && Names(toks) !! Names(w.rest[i].access)
    ensures Emit(w.text, w.rest[i].access) == (Joined(toks + defs), defs)
    ensures Names(defs) == Names(w.rest[i].access) <= voc && defs != []
  {
    hide Apart, Emit, Contains;
    defs := EmitFresh(voc, toks, w.rest[i].access);
    assert w.rest[i].access[0] in Names(w.rest[i].access);
  }

  lemma WithoutApart(voc: set<Macro>, rest: seq<Entry>, toks: seq<Macro>, i: nat)
    requires i < |rest| && OneProvider(rest)
    requires forall j :: 0 <= j < |rest| ==> CleanEntry(rest[j], voc) && Names(toks) !! Names(rest[j].access)
    ensures forall j :: 0 <= j < |Without(rest, i)| ==> CleanEntry(Without(rest, i)[j], voc)
    ensures forall j :: 0 <= j < |Without(rest, i)| ==>
      (Names(toks) + Names(rest[i].access)) !! Names(Without(rest, i)[j].access)
  {
  }

  lemma WithoutOneProvider(rest: seq<Entry>, i: nat)
    requires OneProvider(rest) && i < |rest|
    ensures OneProvider(Without(rest, i))
  {
  }

  /** A scan keeps the invariant; if it reports no change, nothing it looked at was met. */
  lemma {:induction false} PassKeeps(indep: seq<Macro>, deps: seq<Entry>, voc: set<Macro>, w: Work, toks: seq<Macro>,
                                     i: nat, done: bool)
    returns (toks': seq<Macro>)
    requires Inv(indep, deps, voc, w, toks)
    ensures Inv(indep, deps, voc, Pass(w, i, done).0, toks')
    ensures Pass(w, i, done).1 ==> done && Pass(w, i, done).0 == w
    ensures Pass(w, i, done).1 ==> forall j :: i <= j < |w.rest| ==> !Met(w.text, w.rest[j])
    decreases |w.rest|, |w.rest| - i
  {
    hide Inv, Met, IsNews, Process;
    toks' := toks;
    if i < |w.rest| {
      if !Met(w.text, w.rest[i]) {
        toks' := PassKeeps(indep, deps, voc, w, toks, i + 1, done);
      } else {
        toks' := ProcessKeeps(indep, deps, voc, w, toks, i);
        ProcessShrinks(w, i);
        if Process(w, i).rest != [] {
          toks' := PassKeeps(indep, deps, voc, Process(w, i), toks', 1, done && !IsNews(w, i));
        }
      }
    }
  }

  lemma ProcessShrinks(w: Work, i: nat)
    requires i < |w.rest|
    ensures |Process(w, i).rest| < |w.rest|
  {
  }

  lemma {:induction false} LoopKeeps(indep: seq<Macro>, deps: seq<Entry>, voc: set<Macro>, w: Work, toks: seq<Macro>)
    returns (toks': seq<Macro>)
    requires Inv(indep, deps, voc, w, toks)
    ensures Inv(indep, deps, voc, Loop(w), toks')
    ensures forall j :: 0 <= j < |Loop(w).rest| ==> !Met(Loop(w).text, Loop(w).rest[j])
    decreases |w.rest|
  {
    hide Inv, Met, Pass;
    toks' := PassKeeps(indep, deps, voc, w, toks, 0, true);
    PassShrinks(w, 0, true);
    var (w', done) := Pass(w, 0, true);
    if !done && w'.rest != [] {
      toks' := LoopKeeps(indep, deps, voc, w', toks');
    }
  }

  lemma InvInit(indep: seq<Macro>, deps: seq<Entry>, voc: set<Macro>)
    requires Clean(indep, deps, voc)
    ensures Inv(indep, deps, voc, Work(Joined(indep), deps, []), indep)
  {
    hide Contains, Apart;
  }

  /** The ordering the worklist establishes: each emitted block's dependencies come before
      it, and each entry left over has a dependency that nothing emitted can provide. */
  lemma ResolveOrders(indep: seq<Macro>, deps: seq<Entry>, voc: set<Macro>)
    requires Clean(indep, deps, voc)
    ensures var w := Resolve(indep, deps);
      && Ordered(Names(indep), w.out) && Accounted(deps, w.rest, w.out)
      && forall j :: 0 <= j < |w.rest| ==> !(Wanted(w.rest[j].depends) <= Defined(Names(indep), w.out, |w.out|))
  {
    hide Loop, Met, Ordered, Accounted;
    InvInit(indep, deps, voc);
    var toks := LoopKeeps(indep, deps, voc, Work(Joined(indep), deps, []), indep);
    var w := Resolve(indep, deps);
    forall j | 0 <= j < |w.rest|
      ensures !(Wanted(w.rest[j].depends) <= Defined(Names(indep), w.out, |w.out|))
    {
      MetIsDefined(voc, toks, w.rest[j]);
    }
  }

  // ----- running what was ordered -----

  lemma {:induction false} RunGrows(d: set<Macro>, gs: seq<Guarded>, j: nat, k: nat)
    requires j <= k <= |gs|
    ensures Run(d, gs, j) <= Run(d, gs, k)
    decreases k
  {
    if j < k { RunGrows(d, gs, j, k - 1); }
  }

  lemma {:induction false} DefinedGrows(indep: set<Macro>, out: seq<Guarded>, j: nat, k: nat)
    requires j <= k <= |out|
    ensures Defined(indep, out, j) <= Defined(indep, out, k)
    decreases k
  {
    if j < k { DefinedGrows(indep, out, j, k - 1); }
  }

  lemma {:induction false} RunWithin(kept: set<Macro>, indep: set<Macro>, out: seq<Guarded>, k: nat)
    requires kept <= indep && k <= |out|
    ensures Run(kept, out, k) <= Defined(indep, out, k)
  {
    if k > 0 { RunWithin(kept, indep, out, k - 1); }
  }

  /** Once a macro's own block has passed, running on does not change whether it is there. */
  lemma {:induction false} Settled(kept: set<Macro>, indep: set<Macro>, out: seq<Guarded>, j: nat, k: nat, m: Macro)
    requires Ordered(indep, out) && j <= k <= |out| && m in Defined(indep, out, j)
    ensures m in Run(kept, out, k) ==> m in Run(kept, out, j)
    decreases k
  {
    hide Ordered, GuardHolds, Wanted;
    if j < k {
      Settled(kept, indep, out, j, k - 1, m);
      DefinedGrows(indep, out, j, k - 1);
      FollowsAt(indep, out, k - 1);
      RunStep(kept, out, k, m);
    }
  }

  lemma RunStep(kept: set<Macro>, out: seq<Guarded>, k: nat, m: Macro)
    requires 0 < k <= |out| && m !in Names(out[k - 1].defs)
    ensures m in Run(kept, out, k) <==> m in Run(kept, out, k - 1)
  {
    hide GuardHolds;
  }

  lemma FollowsAt(indep: set<Macro>, out: seq<Guarded>, k: nat)
    requires Ordered(indep, out) && k < |out|
    ensures Follows(out[k], Defined(indep, out, k))
  {
  }

  /** Nothing beyond what the rules force is ever defined. */
  lemma {:induction false} RunIsForced(deps: seq<Entry>, kept: set<Macro>, out: seq<Guarded>, k: nat, t: set<Macro>)
    requires k <= |out| && kept <= t && Closed(deps, t)
    requires forall g :: g in out ==> Justified(g, deps)
    requires Positive(deps)
    ensures Run(kept, out, k) <= t
  {
    if k > 0 {
      RunIsForced(deps, kept, out, k - 1, t);
      assert Justified(out[k - 1], deps);
      var i :| 0 <= i < |deps| && Emits(out[k - 1], deps[i]);
      if GuardHolds(Run(kept, out, k - 1), out[k - 1].depends) {
        assert GuardHolds(t, deps[i].depends);
      }
    }
  }

  /** A positive guard holds exactly when all its macros are there. */
  lemma PositiveGuard(d: set<Macro>, deps: seq<Dep>)
    requires forall k :: 0 <= k < |deps| ==> !deps[k].negated
    ensures GuardHolds(d, deps) <==> Wanted(deps) <= d
  {
  }

  /** The ordered blocks alone satisfy every rule. */
  lemma OrderedCloses(indep: seq<Macro>, deps: seq<Entry>, kept: set<Macro>, rest: seq<Entry>, out: seq<Guarded>)
    requires Ordered(Names(indep), out) && Accounted(deps, rest, out) && kept <= Names(indep)
    requires Positive(deps)
    requires forall j :: 0 <= j < |rest| ==> !(Wanted(rest[j].depends) <= Defined(Names(indep), out, |out|))
    ensures Closed(deps, Run(kept, out, |out|))
  {
    hide Ordered;
    var d := Run(kept, out, |out|);
    RunWithin(kept, Names(indep), out, |out|);
    forall i | 0 <= i < |deps| && GuardHolds(d, deps[i].depends) ensures Names(deps[i].access) <= d {
      PositiveGuard(d, deps[i].depends);
      if deps[i] !in rest {
        assert WasEmitted(deps[i], out);
        var k :| 0 <= k < |out| && Emits(out[k], deps[i]);
        BlockFires(kept, Names(indep), out, k);
      }
    }
  }

  /** If an ordered block's dependencies are there in the end, it had fired. */
  lemma BlockFires(kept: set<Macro>, indep: set<Macro>, out: seq<Guarded>, k: nat)
    requires Ordered(indep, out) && k < |out| && forall x :: 0 <= x < |out[k].depends| ==> !out[k].depends[x].negated
    requires Wanted(out[k].depends) <= Run(kept, out, |out|)
    ensures Names(out[k].defs) <= Run(kept, out, |out|)
  {
    hide Ordered;
    FollowsAt(indep, out, k);
    forall m | m in Wanted(out[k].depends) ensures m in Run(kept, out, k) {
      Settled(kept, indep, out, k, |out|, m);
    }
    PositiveGuard(Run(kept, out, k), out[k].depends);
    RunGrows(kept, out, k + 1, |out|);
  }

  /** Blocks left over never fire, whatever their order. */
  lemma {:induction false} LeftoversNeverFire(kept: set<Macro>, indep: set<Macro>, w: Work, k: nat)
    requires kept <= indep && |w.out| <= k <= |Emitted(w)|
    requires Positive(w.rest)
    requires forall j :: 0 <= j < |w.rest| ==> !(Wanted(w.rest[j].depends) <= Defined(indep, w.out, |w.out|))
    ensures Run(kept, Emitted(w), k) == Run(kept, w.out, |w.out|)
    decreases k
  {
    var gs := Emitted(w);
    if k == |w.out| {
      RunPrefix(kept, w, k);
    } else {
      LeftoversNeverFire(kept, indep, w, k - 1);
      var j := k - 1 - |w.out|;
      assert gs[k - 1].depends == w.rest[j].depends;
      RunWithin(kept, indep, w.out, |w.out|);
      PositiveGuard(Run(kept, gs, k - 1), w.rest[j].depends);
    }
  }

  lemma {:induction false} RunPrefix(kept: set<Macro>, w: Work, k: nat)
    requires k <= |w.out|
    ensures Run(kept, Emitted(w), k) == Run(kept, w.out, k)
  {
    if k > 0 { RunPrefix(kept, w, k - 1); }
  }

  /** Ordering preserves meaning: with any subset of the independent defines commented out,
      running the emitted file top to bottom defines exactly the least model of the
      dependency rules. */
  lemma EmittedFileIsLeastModel(indep: seq<Macro>, deps: seq<Entry>, voc: set<Macro>, kept: set<Macro>)
    requires Clean(indep, deps, voc) && Positive(deps) && kept <= Names(indep)
    ensures var gs := Emitted(Resolve(indep, deps));
      LeastModel(kept, deps, Run(kept, gs, |gs|))
  {
    hide Resolve, Ordered, Run, Closed;
    ResolveOrders(indep, deps, voc);
    var w := Resolve(indep, deps);
    RestIsPositive(deps, w.rest);
    LeftoversNeverFire(kept, Names(indep), w, |Emitted(w)|);
    OrderedCloses(indep, deps, kept, w.rest, w.out);
    RunFromKept(kept, w.out);
    forall t | kept <= t && Closed(deps, t) ensures Run(kept, w.out, |w.out|) <= t {
      RunIsForced(deps, kept, w.out, |w.out|, t);
    }
  }

  lemma RestIsPositive(deps: seq<Entry>, rest: seq<Entry>)
    requires Positive(deps)
    requires forall i :: 0 <= i < |rest| ==> rest[i] in deps
    ensures Positive(rest)
  {
  }

  lemma RunFromKept(kept: set<Macro>, gs: seq<Guarded>)
    ensures kept <= Run(kept, gs, |gs|)
  {
    RunGrows(kept, gs, 0, |gs|);
  }

  // ----- what is emitted, negated dependencies included -----

  /** Every component is in the file, ordered or left over, with its own guards and macros,
      and nothing else is. */
  lemma FileIsComplete(indep: seq<Macro>, deps: seq<Entry>, voc: set<Macro>)
    requires Clean(indep, deps, voc)
    ensures var gs := Emitted(Resolve(indep, deps));
      && (forall e :: e in deps ==> exists g :: g in gs && Emits(g, e))
      && (forall g :: g in gs ==> Justified(g, deps))
  {
    hide Resolve, Ordered, Emits;
    ResolveOrders(indep, deps, voc);
    var w := Resolve(indep, deps);
    var gs := Emitted(w);
    forall k | 0 <= k < |w.rest| ensures Emits(gs[|w.out| + k], w.rest[k]) { LeftOver(w, k); }
    forall e | e in deps ensures exists g :: g in gs && Emits(g, e) {
      if WasEmitted(e, w.out) {
        var k :| 0 <= k < |w.out| && Emits(w.out[k], e);
        assert gs[k] == w.out[k];
      } else {
        var k :| 0 <= k < |w.rest| && w.rest[k] == e;
        assert Emits(gs[|w.out| + k], e);
      }
    }
    forall g | g in gs ensures Justified(g, deps) {
      var k :| 0 <= k < |gs| && gs[k] == g;
      if k >= |w.out| {
        assert w.rest[k - |w.out|] in deps;
        var i :| 0 <= i < |deps| && deps[i] == w.rest[k - |w.out|];
        assert Emits(g, deps[i]);
      } else {
        assert w.out[k] == g;
      }
    }
  }

  lemma LeftOver(w: Work, k: nat)
    requires k < |w.rest|
    ensures |w.out| + k < |Emitted(w)| && Emits(Emitted(w)[|w.out| + k], w.rest[k])
  {
  }

  /** All that a guard asks for: each macro there, or not there if its word has a '!'. */
  predicate AsAsked(d: set<Macro>, e: Entry) {
    forall dep :: dep in e.depends ==> if dep.negated then dep.macro !in d else dep.macro in d
  }

  /** Running the ordered part defines, besides what was kept, exactly what the entries whose
      guards hold in the end provide, negated ones included: no later define makes an earlier
      guard wrong. */
  lemma OrderedPartIsStable(indep: seq<Macro>, deps: seq<Entry>, voc: set<Macro>, kept: set<Macro>, m: Macro)
    requires Clean(indep, deps, voc) && kept <= Names(indep)
    ensures var w := Resolve(indep, deps);
      var d := Run(kept, w.out, |w.out|);
      m in d <==> m in kept || exists i :: 0 <= i < |deps| && WasEmitted(deps[i], w.out)
                                           && m in deps[i].access && AsAsked(d, deps[i])
  {
    hide Resolve, Ordered, Run, GuardHolds, AsAsked, Emits;
    ResolveOrders(indep, deps, voc);
    var w := Resolve(indep, deps);
    var d := Run(kept, w.out, |w.out|);
    DefinedBy(kept, Names(indep), w.out, |w.out|, m);
    if k: nat :| k < |w.out| && m in w.out[k].defs && GuardHolds(d, w.out[k].depends) {
      assert w.out[k] in w.out;
      assert Justified(w.out[k], deps);
      var i :| 0 <= i < |deps| && Emits(w.out[k], deps[i]);
      EmitsSame(d, w.out[k], deps[i], m);
      assert WasEmitted(deps[i], w.out);
    }
    if i :| 0 <= i < |deps| && WasEmitted(deps[i], w.out) && m in deps[i].access && AsAsked(d, deps[i]) {
      var k :| 0 <= k < |w.out| && Emits(w.out[k], deps[i]);
      EmitsSame(d, w.out[k], deps[i], m);
    }
  }

  lemma EmitsSame(d: set<Macro>, g: Guarded, e: Entry, m: Macro)
    requires Emits(g, e)
    ensures m in g.defs <==> m in e.access
    ensures GuardHolds(d, g.depends) <==> AsAsked(d, e)
  {
    assert m in Names(g.defs) <==> m in Names(e.access);
  }

  /** A block's guard holds when it is reached if and only if it holds in the end. */
  lemma GuardStays(kept: set<Macro>, indep: set<Macro>, out: seq<Guarded>, j: nat, k: nat)
    requires Ordered(indep, out) && j < k <= |out|
    ensures GuardHolds(Run(kept, out, j), out[j].depends) <==> GuardHolds(Run(kept, out, k), out[j].depends)
  {
    hide Ordered, Run;
    FollowsAt(indep, out, j);
    RunGrows(kept, out, j, k);
    forall x | 0 <= x < |out[j].depends|
      ensures out[j].depends[x].macro in Run(kept, out, j) <==> out[j].depends[x].macro in Run(kept, out, k)
    {
      Settled(kept, indep, out, j, k, out[j].depends[x].macro);
    }
  }

  /** What the first k blocks define, by the guards as they are after those blocks. */
  lemma {:induction false} DefinedBy(kept: set<Macro>, indep: set<Macro>, out: seq<Guarded>, k: nat, m: Macro)
    requires Ordered(indep, out) && k <= |out|
    ensures m in Run(kept, out, k) <==>
      m in kept || exists j: nat :: j < k && m in out[j].defs && GuardHolds(Run(kept, out, k), out[j].depends)
  {
    hide Ordered, GuardHolds;
    if k > 0 {
      DefinedBy(kept, indep, out, k - 1, m);
      forall j: nat | j < k
        ensures GuardHolds(Run(kept, out, j), out[j].depends) <==> GuardHolds(Run(kept, out, k), out[j].depends)
      {
        GuardStays(kept, indep, out, j, k);
      }
      forall j: nat | j < k - 1
        ensures GuardHolds(Run(kept, out, j), out[j].depends) <==> GuardHolds(Run(kept, out, k - 1), out[j].depends)
      {
        GuardStays(kept, indep, out, j, k - 1);
      }
    }
  }

  // ----- inputs for which the ordering fails -----

  lemma SameLengthContains(s: string, t: string)
    requires |s| == |t|
    ensures Contains(s, t) <==> s == t
  {
    if s == t { ContainsSelf(t); }
    if i: nat :| i <= |s| && PrefixAt(s, t, i) {
      assert i == 0 && s[0..0 + |t|] == s;
    }
  }

  function Needs(m: Macro): seq<Dep> {
    [Dep(false, m)]
  }

  /** The skipped first entry.  When an entry is erased without defining anything new, the
      entry that becomes first is not looked at, and the scan may end there: D depends on C,
      C on B, B on A, yet D is never defined although A is. */
  lemma SkippedEntryBreaksModel()
    ensures var deps := [Entry(["A"], Needs("A")), Entry(["B"], Needs("A")),
                         Entry(["D"], Needs("C")), Entry(["C"], Needs("B"))];
      var gs := Emitted(Resolve(["A"], deps));
      !LeastModel({"A"}, deps, Run({"A"}, gs, |gs|))
  {
    hide Contains, Joined, Emit, Run;
    var e1, e2 := Entry(["A"], Needs("A")), Entry(["B"], Needs("A"));
    var e3, e4 := Entry(["D"], Needs("C")), Entry(["C"], Needs("B"));
    var deps := [e1, e2, e3, e4];
    var w := Work(Joined(["A"]), deps, []);
    OneToken("A", "A"); OneToken("A", "B"); OneToken("A", "C");
    var w' := Work(w.text, [e2, e3, e4], [Guarded(Needs("A"), [])]);
    NothingNew(w.text, "A");
    assert Without(deps, 0) == [e2, e3, e4];
    assert Met(w.text, e1);
    assert Process(w, 0) == w' && !IsNews(w, 0);
    assert !Met(w.text, e3) by { assert !Contains(w.text, e3.depends[0].macro); }
    assert !Met(w.text, e4) by { assert !Contains(w.text, e4.depends[0].macro); }
    assert Pass(w', 3, true) == (w', true);
    assert Pass(w', 2, true) == (w', true);
    assert Pass(w', 1, true) == (w', true);
    assert Pass(w, 0, true) == (w', true);
    SkippedRun(w');
    var d := Run({"A"}, Emitted(w'), 4);
    assert GuardHolds(d, e3.depends);
    assert "D" in Names(e3.access);
    assert deps[2] == e3;
  }

  lemma OneToken(a: Macro, t: Macro)
    requires |a| == |t| == 1 && Token(t)
    ensures Contains(Joined([a]), t) <==> a == t
  {
    ContainsJoined([a], t);
    SameLengthContains(a, t);
  }

  lemma NothingNew(text: string, t: Macro)
    requires Contains(text, t)
    ensures Emit(text, [t]) == (text, [])
  {
    assert [t][..0] == [];
    assert Emit(text, []) == (text, []);
  }

  lemma SkippedRun(w: Work)
    requires w.out == [Guarded(Needs("A"), [])]
    requires w.rest == [Entry(["B"], Needs("A")), Entry(["D"], Needs("C")), Entry(["C"], Needs("B"))]
    ensures |Emitted(w)| == 4 && Run({"A"}, Emitted(w), 4) == {"A", "B", "C"}
  {
    var gs := Emitted(w);
    var d1, d2 := {"A"}, {"A", "B"};
    assert gs[0] == Guarded(Needs("A"), []) && gs[1] == Guarded(Needs("A"), ["B"]);
    assert gs[2] == Guarded(Needs("C"), ["D"]) && gs[3] == Guarded(Needs("B"), ["C"]);
    assert Run(d1, gs, 0) == d1;
    assert Names([]) == {};
    assert Run(d1, gs, 1) == d1;
    assert Names(["B"]) == {"B"};
    assert Run(d1, gs, 2) == d2;
    assert "C"[0] != "A"[0] && "C"[0] != "B"[0];
    assert Needs("C")[0].macro !in d2;
    assert Run(d1, gs, 3) == d2;
    assert Names(["C"]) == {"C"};
  }

  /** The substring test.  With XA defined, A counts as defined too: P is emitted before A,
      and A itself is never emitted at all. */
  lemma SubstringBreaksModel()
    ensures var deps := [Entry(["P"], Needs("A")), Entry(["A"], Needs("XA"))];
      var gs := Emitted(Resolve(["XA"], deps));
      !LeastModel({"XA"}, deps, Run({"XA"}, gs, |gs|))
  {
    var e1, e2 := Entry(["P"], Needs("A")), Entry(["A"], Needs("XA"));
    var deps := [e1, e2];
    var w := Work(Joined(["XA"]), deps, []);
    XaContains();
    var t2 := w.text + " " + "P";
    var w1 := Work(t2, [e2], [Guarded(Needs("A"), ["P"])]);
    var w2 := Work(t2, [], [Guarded(Needs("A"), ["P"]), Guarded(Needs("XA"), [])]);
    assert ["P"][..0] == [] && Emit(w.text, []) == (w.text, []);
    assert [] + ["P"] == ["P"];
    assert Emit(w.text, ["P"]) == (t2, ["P"]);
    assert Without(deps, 0) == [e2];
    assert Met(w.text, e1);
    assert Process(w, 0) == w1 && IsNews(w, 0);
    assert Pass(w1, 1, false) == (w1, false);
    assert Pass(w, 0, true) == (w1, false);
    NothingNew(t2, "A");
    assert Met(t2, e2);
    assert Without([e2], 0) == [];
    assert Process(w1, 0) == w2 && !IsNews(w1, 0);
    assert Pass(w1, 0, true) == (w2, true);
    assert Loop(w1) == w2;
    assert Loop(w) == w2;
    SubstringRun(w2);
    var d := Run({"XA"}, Emitted(w2), 2);
    assert GuardHolds(d, e2.depends);
    assert "A" in Names(e2.access);
    assert deps[1] == e2;
  }

  lemma XaContains()
    ensures var text := Joined(["XA"]);
      && Contains(text, "A") && !Contains(text, "P")
      && Contains(text + " " + "P", "A") && Contains(text + " " + "P", "XA")
  {
    var text := Joined(["XA"]);
    assert "XA"[1..1 + |"A"|] == "A";
    assert PrefixAt("XA", "A", 1);
    assert Contains("XA", "A");
    ContainsSelf("XA");
    assert ["XA"][0] == "XA";
    ContainsJoined(["XA"], "A"); ContainsJoined(["XA"], "P"); ContainsJoined(["XA"], "XA");
    assert "XA"[0..0 + |"P"|] == "X" && "X"[0] != "P"[0];
    assert "XA"[1..1 + |"P"|] == "A" && "A"[0] != "P"[0];
    assert !PrefixAt("XA", "P", 0) && !PrefixAt("XA", "P", 1) && !PrefixAt("XA", "P", 2);
    assert !Contains("XA", "P");
    ContainsEither(text, "P", "A"); ContainsEither(text, "P", "XA");
  }

  lemma SubstringRun(w: Work)
    requires w.out == [Guarded(Needs("A"), ["P"]), Guarded(Needs("XA"), [])] && w.rest == []
    ensures |Emitted(w)| == 2 && Run({"XA"}, Emitted(w), 2) == {"XA"}
  {
    var gs, d := Emitted(w), {"XA"};
    assert gs == w.out;
    assert Run(d, gs, 0) == d;
    assert |"A"| != |"XA"|;
    assert Needs("A")[0].macro !in d;
    assert Run(d, gs, 1) == d;
    assert Names([]) == {};
  }
}
