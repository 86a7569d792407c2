/** Nested key maps (mapdhash.cpp): key splitting and lookup, deep copies, and inheritance
    from a superclass by flatten_maps. */
module Inheritance {
  import opened Options
  import opened Expressions

  /** MAPT: an integer, a string, an expression, or a map of further keys. */
  datatype Entry = IntEntry(v: int) | StrEntry(s: string) | AstEntry(a: Ast) | MapEntry(m: map<string, Entry>)

  type Hash = map<string, Entry>

  // ----- copy and flatten_maps -----

  function CopyEntry(e: Entry): Entry {
    match e
    case AstEntry(a) => AstEntry(Copy(a))
    case MapEntry(m) => MapEntry(map k | k in m :: CopyEntry(m[k]))
    case _ => e
  }

  /** What becomes of a key present in both: maps are flattened, anything else is kept. */
  function Merge(own: Entry, inherited: Entry): Entry
    decreases inherited
  {
    match (own, inherited)
    case (MapEntry(node), MapEntry(sub)) =>
      MapEntry(map k | k in node.Keys + sub.Keys ::
        if k !in node then CopyEntry(sub[k])
        else if k in sub then Merge(node[k], sub[k])
        else node[k])
    case _ => own
  }

  /** The entry the flattened map has at a key of either map. */
  function FlatEntry(node: Hash, sub: Hash, k: string): Entry
    requires k in node || k in sub
  {
    if k !in node then CopyEntry(sub[k])
    else if k in sub then Merge(node[k], sub[k])
    else node[k]
  }

  /** flatten_maps(node, sub), as the map node ends up. */
  function Flatten(node: Hash, sub: Hash): (r: Hash)
    ensures r.Keys == node.Keys + sub.Keys
    ensures forall k :: k in r ==> r[k] == FlatEntry(node, sub, k)
  {
    Merge(MapEntry(node), MapEntry(sub)).m
  }

  /** The loop of the source, over the superclass's keys in any order whatever. */
  method FlattenMaps(node0: Hash, sub: Hash) returns (node: Hash)
    ensures node == Flatten(node0, sub)
    decreases MapEntry(sub), 1
  {
    hide Flatten, Partly;
    node := node0;
    var todo := sub.Keys;
    PartlyStart(node0, sub);
    while todo != {}
      invariant todo <= sub.Keys && Partly(node, node0, sub, todo)
      decreases |todo|
    {
      var k :| k in todo;
      var e := FlattenKey(node, sub, k);
      PartlyStep(node, node0, sub, todo, k);
      node := node[k := e];
      todo := todo - {k};
    }
    PartlyEnd(node, node0, sub);
  }

  /** All of the superclass's keys but those in `todo` have been dealt with. */
  ghost predicate Partly(node: Hash, node0: Hash, sub: Hash, todo: set<string>) {
    && node.Keys == node0.Keys + (sub.Keys - todo)
    && forall k :: k in node ==> node[k] == (if k in todo then node0[k] else FlatEntry(node0, sub, k))
  }

  lemma PartlyStart(node0: Hash, sub: Hash)
    ensures Partly(node0, node0, sub, sub.Keys)
  {
  }

  lemma PartlyStep(node: Hash, node0: Hash, sub: Hash, todo: set<string>, k: string)
    requires Partly(node, node0, sub, todo) && k in todo && todo <= sub.Keys
    ensures Partly(node[k := FlatEntry(node, sub, k)], node0, sub, todo - {k})
  {
  }

  lemma PartlyEnd(node: Hash, node0: Hash, sub: Hash)
    requires Partly(node, node0, sub, {})
    ensures node == Flatten(node0, sub)
  {
  }

  /** One key: copy it, descend into it, or leave what is there. */
  method FlattenKey(node: Hash, sub: Hash, k: string) returns (e: Entry)
    requires k in sub
    ensures e == FlatEntry(node, sub, k)
    decreases MapEntry(sub), 0
  {
    if k !in node {
      e := CopyEntry(sub[k]);
    } else if node[k].MapEntry? && sub[k].MapEntry? {
      Below(sub, k);
      var inner := FlattenMaps(node[k].m, sub[k].m);
      e := MapEntry(inner);
    } else {
      e := node[k];
    }
  }

  lemma Below(sub: Hash, k: string)
    requires k in sub && sub[k].MapEntry?
    ensures MapEntry(sub) decreases to MapEntry(sub[k].m)
  {
    var e := MapEntry(sub);
    assert e decreases to e.m[k];
  }

  // ----- lookup -----

  /** The entry at a path of keys, level by level. */
  function Lookup(m: Hash, path: seq<string>): Option<Entry>
    requires path != []
    decreases |path|
  {
    if path[0] !in m then None
    else if |path| == 1 then Some(m[path[0]])
    else if m[path[0]].MapEntry? then Lookup(m[path[0]].m, path[1..])
    else None
  }

  /** A proper prefix of the path already holds something other than a map. */
  predicate LeafOnPath(m: Hash, path: seq<string>)
    requires path != []
    decreases |path|
  {
    |path| > 1 && path[0] in m && (if m[path[0]].MapEntry? then LeafOnPath(m[path[0]].m, path[1..]) else true)
  }

  function CopyFound(e: Option<Entry>): Option<Entry> {
    if e.Some? then Some(CopyEntry(e.value)) else None
  }

  lemma {:induction false} LookupInCopy(e: Entry, path: seq<string>)
    requires e.MapEntry? && path != []
    ensures CopyEntry(e).MapEntry? && Lookup(CopyEntry(e).m, path) == CopyFound(Lookup(e.m, path))
    decreases |path|
  {
    if path[0] in e.m && |path| > 1 && e.m[path[0]].MapEntry? {
      LookupInCopy(e.m[path[0]], path[1..]);
    }
  }

  /** Inheritance: at every key path the flattened map has the component's own entry if
      there is one (merged with the superclass's if both are maps); nothing, if a leaf of
      the component blocks the path; and otherwise a copy of the superclass's entry. */
  lemma {:induction false} FlattenLookup(node: Hash, sub: Hash, path: seq<string>)
    requires path != []
    ensures Lookup(Flatten(node, sub), path) ==
      match Lookup(node, path)
      case Some(own) =>
        if Lookup(sub, path).Some? then Some(Merge(own, Lookup(sub, path).value)) else Some(own)
      case None => if LeafOnPath(node, path) then None else CopyFound(Lookup(sub, path))
    decreases |path|
  {
    var k := path[0];
    if |path| > 1 && k in sub && sub[k].MapEntry? {
      if k !in node {
        LookupInCopy(sub[k], path[1..]);
      } else if node[k].MapEntry? {
        FlattenLookup(node[k].m, sub[k].m, path[1..]);
      }
    }
  }

  /** Nothing already present changes: an own entry that is not a map stays as it is. */
  lemma OwnEntriesKept(node: Hash, sub: Hash, path: seq<string>)
    requires path != [] && Lookup(node, path).Some? && !Lookup(node, path).value.MapEntry?
    ensures Lookup(Flatten(node, sub), path) == Lookup(node, path)
  {
    FlattenLookup(node, sub, path);
  }

  // ----- flattening twice -----

  lemma {:induction false} MergeCopied(e: Entry)
    ensures Merge(CopyEntry(e), e) == CopyEntry(e)
    decreases e
  {
    if e.MapEntry? {
      var c := CopyEntry(e);
      forall k | k in e.m ensures Merge(c.m[k], e.m[k]) == c.m[k] {
        MergeCopied(e.m[k]);
      }
      assert Merge(c, e).m == c.m;
    }
  }

  lemma {:induction false} MergeTwice(own: Entry, inherited: Entry)
    ensures Merge(Merge(own, inherited), inherited) == Merge(own, inherited)
    decreases inherited
  {
    if own.MapEntry? && inherited.MapEntry? {
      var once := Merge(own, inherited);
      forall k | k in inherited.m ensures Merge(once.m[k], inherited.m[k]) == once.m[k] {
        if k in own.m { MergeTwice(own.m[k], inherited.m[k]); } else { MergeCopied(inherited.m[k]); }
      }
      assert Merge(once, inherited).m == once.m;
    }
  }

  /** Flattening twice is flattening once. */
  lemma FlattenIdempotent(node: Hash, sub: Hash)
    ensures Flatten(Flatten(node, sub), sub) == Flatten(node, sub)
  {
    MergeTwice(MapEntry(node), MapEntry(sub));
  }

  // ----- late binding -----

  /** An inherited expression takes its meaning from the heir's scope, however much of it the
      superclass had resolved. */
  lemma InheritedExpressionBindsLate(node: Hash, sub: Hash, path: seq<string>, a: Ast, heir: Env)
    requires path != [] && Lookup(node, path) == None && !LeafOnPath(node, path)
    requires Lookup(sub, path) == Some(AstEntry(a))
    ensures Lookup(Flatten(node, sub), path) == Some(AstEntry(Copy(a)))
    ensures IsDefined(Define(Copy(a), heir)) <==> Covers(heir, Names(a))
    ensures IsDefined(Define(Copy(a), heir)) ==> Eval(Define(Copy(a), heir)) == EvalIn(a, heir)
  {
    FlattenLookup(node, sub, path);
    CopyForgets(a, heir);
    DefineAgrees(Copy(a), heir, heir);
  }

  // ----- dotted keys -----

  /** Position of the first dot, or the length of the key. */
  function FirstDot(ky: string): (i: nat)
    ensures i <= |ky| && (i < |ky| ==> ky[i] == '.') && forall j :: 0 <= j < i ==> ky[j] != '.'
  {
    if ky == "" || ky[0] == '.' then 0 else 1 + FirstDot(ky[1..])
  }

  /** splitkey: no split at a leading or trailing dot. */
  function SplitKey(ky: string): (r: Option<(string, string)>)
    ensures r.Some? ==> r.value.0 + "." + r.value.1 == ky && |r.value.1| < |ky| && r.value.1 != ""
  {
    var i := FirstDot(ky);
    if i < |ky| && i != 0 && i < |ky| - 1 then Some((ky[..i], ky[i + 1..])) else None
  }

  const PLUS: string := "+"

  /** findkey_aux: a first component that is missing is looked for, with the whole key, in
      the superclass map under "+"; an entry there that is no map is itself what is found. */
  function FindKey(m: Hash, ky: string): Option<Entry>
    decreases |ky|, MapEntry(m)
  {
    var split := SplitKey(ky);
    match split
    case None => if ky in m then Some(m[ky]) else None
    case Some((mkey, subky)) =>
      if mkey !in m then
        if PLUS !in m then None else if m[PLUS].MapEntry? then FindKey(m[PLUS].m, ky) else Some(m[PLUS])
      else if m[mkey].MapEntry? then FindKey(m[mkey].m, subky)
      else None
  }

  predicate Component(k: string) {
    k != "" && '.' !in k
  }

  function Join(path: seq<string>): string
    requires path != []
  {
    if |path| == 1 then path[0] else path[0] + "." + Join(path[1..])
  }

  ghost predicate Path(path: seq<string>) {
    path != [] && forall i :: 0 <= i < |path| ==> Component(path[i])
  }

  lemma FirstDotIs(ky: string, i: nat)
    requires i <= |ky| && (i < |ky| ==> ky[i] == '.') && forall j :: 0 <= j < i ==> ky[j] != '.'
    ensures FirstDot(ky) == i
  {
  }

  lemma DotAfter(k: string, rest: string)
    requires '.' !in k
    ensures FirstDot(k) == |k| && FirstDot(k + "." + rest) == |k|
  {
    FirstDotIs(k, |k|);
    FirstDotIs(k + "." + rest, |k|);
  }

  /** A dotted key finds what its path names: splitting undoes joining at every level. */
  lemma {:induction false} FindKeyFollowsPath(m: Hash, path: seq<string>)
    requires Path(path) && Lookup(m, path).Some?
    ensures FindKey(m, Join(path)) == Lookup(m, path)
    decreases |path|
  {
    var k := path[0];
    assert Component(k);
    if |path| == 1 {
      DotAfter(k, "");
    } else {
      var rest := Join(path[1..]);
      DotAfter(k, rest);
      assert Component(path[1]);
      JoinNonEmpty(path[1..]);
      var ky := k + "." + rest;
      assert ky[..|k|] == k && ky[|k| + 1..] == rest;
      FindKeyFollowsPath(m[k].m, path[1..]);
    }
  }

  lemma JoinNonEmpty(path: seq<string>)
    requires Path(path)
    ensures Join(path) != ""
  {
    assert Component(path[0]);
  }

  /** So after flattening, a component's key finds its own entry or else the inherited one. */
  lemma FindKeyInherits(node: Hash, sub: Hash, path: seq<string>)
    requires Path(path) && Lookup(node, path) == None && !LeafOnPath(node, path) && Lookup(sub, path).Some?
    ensures FindKey(Flatten(node, sub), Join(path)) == Some(CopyEntry(Lookup(sub, path).value))
  {
    FlattenLookup(node, sub, path);
    FindKeyFollowsPath(Flatten(node, sub), path);
  }

  /** Numbers and strings arrive as the superclass has them, and what the component has as a
      map stays a map. */
  lemma InheritedAsIs(node: Hash, sub: Hash, path: seq<string>)
    requires path != []
    ensures Lookup(node, path) == None && !LeafOnPath(node, path) ==>
      var e := Lookup(sub, path);
      && (e.None? || e.value.IntEntry? || e.value.StrEntry? ==> Lookup(Flatten(node, sub), path) == e)
      && (e.Some? && e.value.MapEntry? ==>
            Lookup(Flatten(node, sub), path).Some? && Lookup(Flatten(node, sub), path).value.MapEntry?)
    ensures Lookup(node, path).Some? && Lookup(node, path).value.MapEntry? ==>
      Lookup(Flatten(node, sub), path).Some? && Lookup(Flatten(node, sub), path).value.MapEntry?
  {
    FlattenLookup(node, sub, path);
  }

  /** A key of several components whose first is missing is left to the superclass map, or
      finds what stands in that map's place; a key of one component is not, nor one whose first
      component is something other than a map. */
  lemma PlusIsConsulted(m: Hash, path: seq<string>)
    requires Path(path)
    ensures |path| == 1 ==> FindKey(m, path[0]) == Lookup(m, path)
    ensures |path| > 1 && path[0] !in m && PLUS in m && m[PLUS].MapEntry? ==>
      && FindKey(m, Join(path)) == FindKey(m[PLUS].m, Join(path))
      && (Lookup(m[PLUS].m, path).Some? ==> FindKey(m, Join(path)) == Lookup(m[PLUS].m, path))
    ensures |path| > 1 && path[0] !in m && !(PLUS in m && m[PLUS].MapEntry?) ==>
      FindKey(m, Join(path)) == Lookup(m, [PLUS])
    ensures |path| > 1 && path[0] in m && !m[path[0]].MapEntry? ==> FindKey(m, Join(path)) == None
  {
    hide FirstDot, Lookup;
    if |path| == 1 {
      LookupOne(m, path);
      assert Component(path[0]);
      DotAfter(path[0], "");
    } else {
      JoinSplits(path);
      LookupOne(m, [PLUS]);
      if path[0] !in m && PLUS in m && m[PLUS].MapEntry? && Lookup(m[PLUS].m, path).Some? {
        FindKeyFollowsPath(m[PLUS].m, path);
      }
    }
  }

  lemma LookupOne(m: Hash, path: seq<string>)
    requires |path| == 1
    ensures Lookup(m, path) == if path[0] in m then Some(m[path[0]]) else None
  {
  }

  lemma JoinSplits(path: seq<string>)
    requires Path(path) && |path| > 1
    ensures SplitKey(Join(path)) == Some((path[0], Join(path[1..])))
  {
    var k, rest := path[0], Join(path[1..]);
    assert Component(k);
    DotAfter(k, rest);
    assert Path(path[1..]);
    JoinNonEmpty(path[1..]);
    var ky := k + "." + rest;
    assert ky[..|k|] == k && ky[|k| + 1..] == rest;
  }

  /** A key that begins with a dot, or has its first dot at the end, is looked up whole. */
  lemma OuterDots(m: Hash, k: string)
    requires '.' !in k
    ensures FindKey(m, "." + k) == Lookup(m, ["." + k]) && FindKey(m, k + ".") == Lookup(m, [k + "."])
  {
    FirstDotIs("." + k, 0);
    DotAfter(k, "");
    assert k + "." + "" == k + ".";
    LookupOne(m, ["." + k]);
    LookupOne(m, [k + "."]);
  }
}
