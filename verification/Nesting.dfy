/** When the inner loop of subresults_into ends, with texts that hold references themselves:
    exactly when the references nest to some finite depth. */
module Nesting {
  import opened Options
  import opened Substitution

  // ----- strings and texts whose references can be read one by one -----

  /** The reference at mark k is complete, its format plain, and no other mark lies inside it. */
  predicate RefOk(s: string, k: nat)
    requires MarkAt(s, k)
  {
    var p := Parse(s, k);
    p.Ref? && PlainFormat(s, k) && forall j: nat :: k < j < p.end ==> !MarkAt(s, j)
  }

  predicate WellFrom(s: string, i: nat) {
    forall k: nat :: i <= k < |s| && MarkAt(s, k) ==> RefOk(s, k)
  }

  /** A text whose references read the same whatever follows it. */
  predicate Sealed(t: string) {
    EndsWell(t) && WellFrom(t, 0) && forall k: nat :: k < |t| && MarkAt(t, k) ==> RefStop(t, k) < |t|
  }

  /** Every text a name stands for is sealed; it may hold references. */
  ghost predicate Solid(n: Sources) {
    && Prints(n.form)
    && forall key :: NamedString(n.find(key)).Some? ==> Sealed(NamedString(n.find(key)).value)
  }

  /** What a reference is replaced by, if it is. */
  function Replacement(n: Sources, format: Option<string>, key: string): Option<string> {
    var str, val := NamedString(n.find(key)), NamedValue(n.find(key));
    if key == "" then None
    else if format.Some? && val.Some? then Some(n.form(format.value, val.value))
    else if str.Some? then str
    else if val.Some? then Some(Decimal(val.value))
    else None
  }

  lemma ActIsReplacement(n: Sources, s: string, k: nat)
    requires MarkAt(s, k) && RefOk(s, k)
    ensures var p, a := Parse(s, k), ActAt(n, s, k);
      match Replacement(n, p.format, p.key)
      case None => a == Skip
      case Some(t) => a.Put? && a.text == t && a.end == p.end
  {
    hide Parse, Decimal;
  }

  lemma ReplacementSealed(n: Sources, s: string, k: nat)
    requires Solid(n) && MarkAt(s, k) && RefOk(s, k)
    ensures var r := Replacement(n, Parse(s, k).format, Parse(s, k).key); r.Some? ==> Sealed(r.value)
  {
    hide Decimal, Sealed, ParseKey;
    var p := Parse(s, k);
    var r := Replacement(n, p.format, p.key);
    if r.Some? && NamedString(n.find(p.key)) != r {
      if p.format.Some? && NamedValue(n.find(p.key)).Some? {
        var f, v := p.format.value, NamedValue(n.find(p.key)).value;
        assert PlainText(f);
        assert r.value == n.form(f, v);
      } else {
        DecimalIsPlain(NamedValue(n.find(p.key)).value);
      }
      AtFreeIsSealed(r.value);
    } else if r.Some? {
      assert Sealed(NamedString(n.find(p.key)).value);
    }
  }

  lemma AtFreeIsSealed(t: string)
    requires '@' !in t
    ensures Sealed(t)
  {
  }

  // ----- depth of nesting -----

  /** The reference, and all references in the text it is replaced by, nest to depth d. */
  predicate NestsRef(n: Sources, format: Option<string>, key: string, d: nat)
    decreases d, 0
  {
    var t := Replacement(n, format, key);
    t.None? || (d > 0 && NestsFrom(n, t.value, 0, d - 1))
  }

  /** All references from position i on nest to depth d. */
  predicate NestsFrom(n: Sources, s: string, i: nat, d: nat)
    decreases d, 1
  {
    forall k: nat :: i <= k < |s| && MarkAt(s, k) && Parse(s, k).Ref? ==>
      NestsRef(n, Parse(s, k).format, Parse(s, k).key, d)
  }

  lemma {:induction false} NestsDeeper(n: Sources, format: Option<string>, key: string, d: nat, e: nat)
    requires NestsRef(n, format, key, d) && d <= e
    ensures NestsRef(n, format, key, e)
    decreases d
  {
    hide Parse, Replacement;
    var t := Replacement(n, format, key);
    if t.Some? {
      forall k: nat | k < |t.value| && MarkAt(t.value, k) && Parse(t.value, k).Ref?
        ensures NestsRef(n, Parse(t.value, k).format, Parse(t.value, k).key, e - 1)
      {
        NestsDeeper(n, Parse(t.value, k).format, Parse(t.value, k).key, d - 1, e - 1);
      }
    }
  }

  /** How many steps a reference takes, with all it brings in; and all references from i on. */
  ghost function Steps(n: Sources, format: Option<string>, key: string, d: nat): nat
    requires NestsRef(n, format, key, d)
    decreases d, 0, 0
  {
    var t := Replacement(n, format, key);
    if t.None? then 1 else 1 + StepsFrom(n, t.value, 0, d - 1)
  }

  ghost function StepsFrom(n: Sources, s: string, i: nat, d: nat): nat
    requires i <= |s| && NestsFrom(n, s, i, d)
    decreases d, 1, |s| - i
  {
    if i == |s| then 0
    else
      (if MarkAt(s, i) && Parse(s, i).Ref? then Steps(n, Parse(s, i).format, Parse(s, i).key, d) else 0)
        + StepsFrom(n, s, i + 1, d)
  }

  lemma {:induction false} StepsSame(n: Sources, format: Option<string>, key: string, d: nat, e: nat)
    requires NestsRef(n, format, key, d) && d <= e
    ensures NestsRef(n, format, key, e) && Steps(n, format, key, e) == Steps(n, format, key, d)
    decreases d, 0, 0
  {
    hide Parse, Replacement;
    NestsDeeper(n, format, key, d, e);
    var t := Replacement(n, format, key);
    if t.Some? { StepsFromSame(n, t.value, 0, d - 1, e - 1); }
  }

  lemma {:induction false} StepsFromSame(n: Sources, s: string, i: nat, d: nat, e: nat)
    requires i <= |s| && NestsFrom(n, s, i, d) && d <= e && NestsFrom(n, s, i, e)
    ensures StepsFrom(n, s, i, e) == StepsFrom(n, s, i, d)
    decreases d, 1, |s| - i
  {
    hide Parse, Replacement;
    if i < |s| {
      if MarkAt(s, i) && Parse(s, i).Ref? { StepsSame(n, Parse(s, i).format, Parse(s, i).key, d, e); }
      StepsFromSame(n, s, i + 1, d, e);
    }
  }

  // ----- references read the same in the same surroundings -----

  lemma LengthSuffix(s: string, r: string, x: nat, y: nat)
    requires SameSuffix(s, r, x, y)
    ensures KeyLength(s, x) == KeyLength(r, y)
  {
    hide SameSuffix;
    SameLength(s, r, x, y);
    SuffixShift(s, r, x, y, 0);
    RunSuffix(s, r, x, y);
    if x < |s| { SuffixShift(s, r, x, y, 1); RunSuffix(s, r, x + 1, y + 1); }
  }

  lemma KeySuffixParse(s: string, r: string, format: Option<string>, x: nat, y: nat)
    requires SameSuffix(s, r, x, y)
    ensures var p, q := ParseKey(s, format, x), ParseKey(r, format, y);
      p.key == q.key && p.end - x == q.end - y
  {
    hide SameSuffix, KeyLength;
    SameLength(s, r, x, y);
    SuffixShift(s, r, x, y, 0);
    if x < |s| && s[x] == '(' {
      SuffixShift(s, r, x, y, 1);
      LengthSuffix(s, r, x + 1, y + 1);
      SliceSuffix(s, r, x + 1, y + 1, KeyLength(s, x + 1));
    } else {
      LengthSuffix(s, r, x, y);
      SliceSuffix(s, r, x, y, KeyLength(s, x));
    }
  }

  /** Two readings of the same reference at two places. */
  predicate SameRef(p: Parsed, x: nat, q: Parsed, y: nat) {
    p.Ref? == q.Ref? && (p.Ref? ==> p.format == q.format && p.key == q.key && p.end - x == q.end - y)
  }

  lemma ParseSuffix(s: string, r: string, x: nat, y: nat)
    requires SameSuffix(s, r, x, y) && MarkAt(s, x)
    ensures MarkAt(r, y) && SameRef(Parse(s, x), x, Parse(r, y), y)
  {
    hide SameSuffix, Bracket, ParseKey;
    SameLength(s, r, x, y);
    MarkSuffix(s, r, x, y);
    SuffixShift(s, r, x, y, 2);
    if x + 2 < |s| && s[x + 2] == '[' {
      SuffixShift(s, r, x, y, 3);
      BracketSuffix(s, r, x + 3, y + 3);
      var e := Bracket(s, x + 3);
      if e < |s| {
        SliceSuffix(s, r, x + 3, y + 3, e - (x + 3));
        SuffixShift(s, r, x, y, e + 1 - x);
        KeySuffixParse(s, r, Some(s[x + 3..e]), e + 1, e + 1 - x + y);
      }
    } else {
      KeySuffixParse(s, r, None, x + 2, y + 2);
    }
  }

  lemma RefOkSuffix(s: string, r: string, x: nat, y: nat)
    requires SameSuffix(s, r, x, y) && MarkAt(s, x) && RefOk(s, x)
    ensures MarkAt(r, y) && RefOk(r, y)
  {
    hide SameSuffix, Parse, PlainFormat;
    SameLength(s, r, x, y);
    ParseSuffix(s, r, x, y);
    FormatSuffix(s, r, x, y);
    forall j: nat | y < j < Parse(r, y).end ensures !MarkAt(r, j) {
      SuffixShift(s, r, x, y, j - y);
      MarkSuffix(s, r, x + (j - y), j);
    }
  }

  /** A text with something behind it: its own marks are the only ones within it. */
  lemma MarkInFront(t: string, b: string, k: nat)
    requires EndsWell(t) && k < |t|
    ensures MarkAt(t + b, k) <==> MarkAt(t, k)
  {
  }

  lemma SealedInFront(t: string, b: string, k: nat)
    requires Sealed(t) && k < |t| && MarkAt(t, k)
    ensures MarkAt(t + b, k) && Parse(t + b, k) == Parse(t, k) && Parse(t, k).Ref? && Parse(t, k).end <= |t|
    ensures RefOk(t + b, k)
  {
    hide Parse, RefStop, EndsWell;
    assert (t + b)[..|t|] == t[..|t|];
    assert RefOk(t, k);
    StopBehind(t, k);
    RefPrefix(t, t + b, k, |t|);
    FormatInFront(t, b, k);
    forall j: nat | k < j < Parse(t, k).end ensures !MarkAt(t + b, j) {
      MarkInFront(t, b, j);
    }
  }

  lemma StopBehind(t: string, k: nat)
    requires MarkAt(t, k)
    ensures RefStop(t, k) >= k + 2
  {
  }

  lemma FormatInFront(t: string, b: string, k: nat)
    requires MarkAt(t, k) && MarkAt(t + b, k) && PlainFormat(t, k) && RefStop(t, k) < |t| && k + 2 < |t|
    ensures PlainFormat(t + b, k)
  {
    hide KeyStop, PlainText;
    assert (t + b)[k + 2] == t[k + 2];
    if t[k + 2] == '[' {
      assert (t + b)[..|t|] == t[..|t|];
      BracketPrefix(t, t + b, k + 3, |t|);
      assert (t + b)[k + 3..Bracket(t, k + 3)] == t[k + 3..Bracket(t, k + 3)];
    }
  }

  // ----- one replacement -----

  /** The string from the replaced reference on. */
  lemma SpliceFrom(s: string, k: nat, t: string, end: nat)
    requires k <= end <= |s|
    ensures SameSuffix(t + s[end..], Splice(s, k, t, end), 0, k)
    ensures SameSuffix(s, t + s[end..], end, |t|)
  {
    var u, r := t + s[end..], Splice(s, k, t, end);
    assert u[0..] == u && r[k..] == u;
    assert u[|t|..] == s[end..];
  }

  /** A mark of a text with something behind it is a mark of the one or of the other. */
  lemma MarkOfTwo(t: string, s: string, end: nat, x: nat)
    requires Sealed(t) && end <= |s| && x < |t + s[end..]| && MarkAt(t + s[end..], x)
    requires WellFrom(s, end)
    ensures RefOk(t + s[end..], x)
    ensures x < |t| ==> MarkAt(t, x) && Parse(t + s[end..], x) == Parse(t, x)
    ensures x >= |t| ==>
      && MarkAt(s, end + (x - |t|))
      && SameRef(Parse(s, end + (x - |t|)), end + (x - |t|), Parse(t + s[end..], x), x)
  {
    hide Parse, RefOk, RefStop, EndsWell;
    var b := s[end..];
    if x < |t| {
      MarkInFront(t, b, x);
      SealedInFront(t, b, x);
    } else {
      var y := end + (x - |t|);
      assert (t + b)[|t|..] == b;
      SuffixShift(t + b, s, |t|, end, x - |t|);
      MarkSuffix(t + b, s, x, y);
      FlipSuffix(t + b, s, x, y);
      ParseSuffix(s, t + b, y, x);
      RefOkSuffix(s, t + b, y, x);
    }
  }

  lemma FlipSuffix(s: string, r: string, x: nat, y: nat)
    requires SameSuffix(s, r, x, y)
    ensures SameSuffix(r, s, y, x)
  {
  }

  lemma SpliceWell(s: string, k: nat, t: string, end: nat)
    requires k <= end <= |s| && WellFrom(s, end) && Sealed(t)
    ensures WellFrom(Splice(s, k, t, end), k)
  {
    hide Parse, RefOk, Splice, Sealed;
    var u, r := t + s[end..], Splice(s, k, t, end);
    SpliceFrom(s, k, t, end);
    forall x: nat | k <= x < |r| && MarkAt(r, x) ensures RefOk(r, x) {
      FlipSuffix(u, r, 0, k);
      SuffixShift(r, u, k, 0, x - k);
      MarkSuffix(r, u, x, x - k);
      MarkOfTwo(t, s, end, x - k);
      FlipSuffix(r, u, x, x - k);
      RefOkSuffix(u, r, x - k, x);
    }
  }

  /** The references of a spliced string nest as those of its two parts do, and take as many
      steps. */
  lemma {:induction false} StepsOfTwo(n: Sources, t: string, s: string, end: nat, x: nat, d: nat)
    requires Sealed(t) && end <= |s| && WellFrom(s, end) && x <= |t|
    requires NestsFrom(n, t, x, d) && NestsFrom(n, s, end, d)
    ensures NestsFrom(n, t + s[end..], x, d)
    ensures StepsFrom(n, t + s[end..], x, d) == StepsFrom(n, t, x, d) + StepsFrom(n, s, end, d)
    decreases |t| - x
  {
    hide Parse, Sealed, WellFrom, RefOk;
    var u := t + s[end..];
    NestsOfTwo(n, t, s, end, x, d);
    if x == |t| {
      assert u[|t|..] == s[end..];
      StepsSuffix(n, s, u, end, |t|, d);
    } else {
      StepsOfTwo(n, t, s, end, x + 1, d);
      MarkHere(t, s, end, x);
    }
  }

  lemma MarkHere(t: string, s: string, end: nat, x: nat)
    requires Sealed(t) && end <= |s| && WellFrom(s, end) && x < |t|
    ensures MarkAt(t + s[end..], x) <==> MarkAt(t, x)
    ensures MarkAt(t, x) ==> Parse(t + s[end..], x) == Parse(t, x)
  {
    hide Parse, RefOk, RefStop, EndsWell, WellFrom;
    MarkInFront(t, s[end..], x);
    if MarkAt(t, x) { SealedInFront(t, s[end..], x); }
  }

  lemma NestsOfTwo(n: Sources, t: string, s: string, end: nat, x: nat, d: nat)
    requires Sealed(t) && end <= |s| && WellFrom(s, end) && x <= |t|
    requires NestsFrom(n, t, x, d) && NestsFrom(n, s, end, d)
    ensures NestsFrom(n, t + s[end..], x, d)
  {
    hide Parse, Sealed, WellFrom, RefOk, NestsRef;
    var u := t + s[end..];
    forall k: nat | x <= k < |u| && MarkAt(u, k) && Parse(u, k).Ref?
      ensures NestsRef(n, Parse(u, k).format, Parse(u, k).key, d)
    {
      MarkOfTwo(t, s, end, k);
      if k >= |t| { assert end + (k - |t|) < |s|; }
    }
  }

  lemma {:induction false} StepsSuffix(n: Sources, s: string, r: string, x: nat, y: nat, d: nat)
    requires SameSuffix(s, r, x, y) && NestsFrom(n, s, x, d) && NestsFrom(n, r, y, d)
    ensures x <= |s| && y <= |r| && StepsFrom(n, s, x, d) == StepsFrom(n, r, y, d)
    decreases |s| - x
  {
    hide Parse, SameSuffix, NestsRef;
    SameLength(s, r, x, y);
    if x < |s| {
      SuffixShift(s, r, x, y, 1);
      MarkSuffix(s, r, x, y);
      if MarkAt(s, x) { ParseSuffix(s, r, x, y); }
      StepsSuffix(n, s, r, x + 1, y + 1, d);
    }
  }

  lemma NestsSuffix(n: Sources, s: string, r: string, x: nat, y: nat, d: nat)
    requires SameSuffix(s, r, x, y) && NestsFrom(n, s, x, d)
    ensures NestsFrom(n, r, y, d)
  {
    hide Parse, SameSuffix, NestsRef;
    SameLength(s, r, x, y);
    FlipSuffix(s, r, x, y);
    forall k: nat | y <= k < |r| && MarkAt(r, k) && Parse(r, k).Ref?
      ensures NestsRef(n, Parse(r, k).format, Parse(r, k).key, d)
    {
      SuffixShift(r, s, y, x, k - y);
      ParseSuffix(r, s, k, x + (k - y));
    }
  }

  /** Putting a sealed text in place of a reference: the rest takes the steps of its parts. */
  lemma SpliceSteps(n: Sources, s: string, k: nat, t: string, end: nat, d: nat)
    requires k <= end <= |s| && WellFrom(s, end) && Sealed(t)
    requires NestsFrom(n, t, 0, d) && NestsFrom(n, s, end, d)
    ensures k <= |Splice(s, k, t, end)| && NestsFrom(n, Splice(s, k, t, end), k, d)
    ensures StepsFrom(n, Splice(s, k, t, end), k, d) == StepsFrom(n, t, 0, d) + StepsFrom(n, s, end, d)
  {
    hide Parse, Sealed, WellFrom, Splice, NestsFrom, SameSuffix;
    var u, r := t + s[end..], Splice(s, k, t, end);
    SpliceFrom(s, k, t, end);
    SameLength(u, r, 0, k);
    StepsOfTwo(n, t, s, end, 0, d);
    NestsSuffix(n, u, r, 0, k, d);
    StepsSuffix(n, u, r, 0, k, d);
  }

  lemma {:induction false} StepsSkip(n: Sources, s: string, i: nat, j: nat, d: nat)
    requires i <= j <= |s| && NestsFrom(n, s, i, d) && forall k: nat :: i <= k < j ==> !MarkAt(s, k)
    ensures NestsFrom(n, s, j, d) && StepsFrom(n, s, j, d) == StepsFrom(n, s, i, d)
    decreases j - i
  {
    hide Parse, NestsRef;
    if i < j { StepsSkip(n, s, i + 1, j, d); }
  }

  // ----- the loop ends if the references nest -----

  /** One reference is dealt with: fewer steps are left. */
  lemma Progress(n: Sources, s: string, k: nat, d: nat)
    requires Solid(n) && MarkAt(s, k) && WellFrom(s, k) && NestsFrom(n, s, k, d)
    ensures ActAt(n, s, k).Put? || ActAt(n, s, k).Skip?
    ensures ActAt(n, s, k).Skip? ==>
      NestsFrom(n, s, k + 1, d) && StepsFrom(n, s, k + 1, d) < StepsFrom(n, s, k, d)
    ensures ActAt(n, s, k).Put? ==>
      var r := Splice(s, k, ActAt(n, s, k).text, ActAt(n, s, k).end);
      && k <= |r| && WellFrom(r, k) && NestsFrom(n, r, k, d) && StepsFrom(n, r, k, d) < StepsFrom(n, s, k, d)
  {
    hide Parse, Splice, Sealed, Solid, ActAt, Replacement, NestsRef, RefOk;
    assert RefOk(s, k);
    var p := OkRef(s, k);
    ActIsReplacement(n, s, k);
    ReplacementSealed(n, s, k);
    StepsFirst(n, s, k, d);
    var t := Replacement(n, p.format, p.key);
    if t.Some? {
      ReplacedSteps(n, p.format, p.key, d);
      NoMarkInside(s, k);
      StepsSkip(n, s, k + 1, p.end, d);
      SpliceWell(s, k, t.value, p.end);
      SpliceSteps(n, s, k, t.value, p.end, d);
    }
  }

  lemma OkRef(s: string, k: nat) returns (p: Parsed)
    requires MarkAt(s, k) && RefOk(s, k)
    ensures p == Parse(s, k) && p.Ref? && k + 2 <= p.end <= |s|
  {
    p := Parse(s, k);
  }

  lemma NoMarkInside(s: string, k: nat)
    requires MarkAt(s, k) && RefOk(s, k)
    ensures forall j: nat :: k < j < Parse(s, k).end ==> !MarkAt(s, j)
  {
  }

  lemma StepsFirst(n: Sources, s: string, k: nat, d: nat)
    requires MarkAt(s, k) && RefOk(s, k) && NestsFrom(n, s, k, d)
    ensures var p := Parse(s, k);
      && NestsRef(n, p.format, p.key, d) && NestsFrom(n, s, k + 1, d)
      && StepsFrom(n, s, k, d) == Steps(n, p.format, p.key, d) + StepsFrom(n, s, k + 1, d)
      && Steps(n, p.format, p.key, d) >= 1
  {
    hide Parse, NestsRef, Replacement;
  }

  lemma ReplacedSteps(n: Sources, format: Option<string>, key: string, d: nat)
    requires NestsRef(n, format, key, d) && Replacement(n, format, key).Some?
    ensures var t := Replacement(n, format, key).value;
      NestsFrom(n, t, 0, d) && StepsFrom(n, t, 0, d) < Steps(n, format, key, d)
  {
    hide Parse, Replacement;
    var t := Replacement(n, format, key).value;
    forall k: nat | k < |t| && MarkAt(t, k) && Parse(t, k).Ref?
      ensures NestsRef(n, Parse(t, k).format, Parse(t, k).key, d)
    {
      NestsDeeper(n, Parse(t, k).format, Parse(t, k).key, d - 1, d);
    }
    StepsFromSame(n, t, 0, d - 1, d);
  }

  lemma {:induction false} NestedEnds(n: Sources, s: string, i: nat, d: nat) returns (count: nat)
    requires Solid(n) && i <= |s| && WellFrom(s, i) && NestsFrom(n, s, i, d)
    ensures Iterate(n, Running(s, i), count) == Over
    decreases StepsFrom(n, s, i, d)
  {
    hide Solid, WellFrom, NestsFrom, ActAt, Splice, StepsFrom;
    var f := FindMark(s, i);
    if f.None? {
      count := 1;
    } else {
      var k := f.value;
      LaterWell(s, i, k);
      StepsSkip(n, s, i, k, d);
      Progress(n, s, k, d);
      var a := ActAt(n, s, k);
      if a.Skip? {
        LaterWell(s, k, k + 1);
        count := NestedEnds(n, s, k + 1, d);
      } else {
        count := NestedEnds(n, Splice(s, k, a.text, a.end), k, d);
      }
      count := count + 1;
    }
  }

  lemma LaterWell(s: string, i: nat, j: nat)
    requires WellFrom(s, i) && i <= j
    ensures WellFrom(s, j)
  {
    hide RefOk;
  }

  // ----- and only then -----

  /** The reference nests to no finite depth. */
  ghost predicate Endless(n: Sources, format: Option<string>, key: string) {
    forall d: nat :: !NestsRef(n, format, key, d)
  }

  /** If every reference from i on nests, they nest to a common depth. */
  lemma {:induction false} CommonDepth(n: Sources, s: string, i: nat) returns (d: nat)
    requires i <= |s|
    requires forall k: nat :: i <= k < |s| && MarkAt(s, k) && Parse(s, k).Ref? ==>
      !Endless(n, Parse(s, k).format, Parse(s, k).key)
    ensures NestsFrom(n, s, i, d)
    decreases |s| - i
  {
    hide Parse, NestsRef;
    if i == |s| {
      d := 0;
    } else {
      var e := CommonDepth(n, s, i + 1);
      d := e;
      if MarkAt(s, i) && Parse(s, i).Ref? {
        var c: nat :| NestsRef(n, Parse(s, i).format, Parse(s, i).key, c);
        if c > e { d := c; }
        NestsDeeper(n, Parse(s, i).format, Parse(s, i).key, c, d);
      }
      forall k: nat | i < k < |s| && MarkAt(s, k) && Parse(s, k).Ref?
        ensures NestsRef(n, Parse(s, k).format, Parse(s, k).key, d)
      {
        NestsDeeper(n, Parse(s, k).format, Parse(s, k).key, e, d);
      }
    }
  }

  /** A reference that nests to no depth brings in another. */
  lemma EndlessBelow(n: Sources, format: Option<string>, key: string) returns (k: nat)
    requires Endless(n, format, key)
    ensures var t := Replacement(n, format, key);
      && t.Some? && k < |t.value| && MarkAt(t.value, k) && Parse(t.value, k).Ref?
      && Endless(n, Parse(t.value, k).format, Parse(t.value, k).key)
  {
    hide Parse, Replacement;
    var t := Replacement(n, format, key);
    assert !NestsRef(n, format, key, 0);
    if forall j: nat :: 0 <= j < |t.value| && MarkAt(t.value, j) && Parse(t.value, j).Ref? ==>
        !Endless(n, Parse(t.value, j).format, Parse(t.value, j).key)
    {
      var d := CommonDepth(n, t.value, 0);
      assert NestsRef(n, format, key, d + 1);
    }
    k :| k < |t.value| && MarkAt(t.value, k) && Parse(t.value, k).Ref?
      && Endless(n, Parse(t.value, k).format, Parse(t.value, k).key);
  }

  /** Some reference from i on nests to no depth. */
  ghost predicate EndlessAt(n: Sources, s: string, i: nat, k: nat) {
    i <= k && MarkAt(s, k) && Parse(s, k).Ref? && Endless(n, Parse(s, k).format, Parse(s, k).key)
  }

  /** Replacing a reference in front of it moves it; replacing it brings in another. */
  lemma EndlessStep(n: Sources, s: string, f: nat, k: nat) returns (j: nat)
    requires Solid(n) && MarkAt(s, f) && WellFrom(s, f) && EndlessAt(n, s, f, k)
    ensures ActAt(n, s, f).Put? || (ActAt(n, s, f).Skip? && f < k)
    ensures ActAt(n, s, f).Put? ==>
      var r := Splice(s, f, ActAt(n, s, f).text, ActAt(n, s, f).end);
      f <= |r| && WellFrom(r, f) && EndlessAt(n, r, f, j)
  {
    hide Parse, Splice, Sealed, Solid, ActAt, Replacement, Endless, RefOk;
    assert RefOk(s, f);
    var p := OkRef(s, f);
    ActIsReplacement(n, s, f);
    ReplacementSealed(n, s, f);
    j := 0;
    if f == k { var x := EndlessBelow(n, p.format, p.key); }
    var t := Replacement(n, p.format, p.key);
    if t.Some? {
      SpliceWell(s, f, t.value, p.end);
      SpliceFrom(s, f, t.value, p.end);
      var u, r := t.value + s[p.end..], Splice(s, f, t.value, p.end);
      SameLength(u, r, 0, f);
      var y: nat;
      if f == k {
        y := EndlessBelow(n, p.format, p.key);
        SealedMark(t.value, s[p.end..], y);
      } else {
        NoMarkInside(s, f);
        y := |t.value| + (k - p.end);
        SuffixShift(s, u, p.end, |t.value|, k - p.end);
        ParseSuffix(s, u, k, y);
      }
      SuffixShift(u, r, 0, f, y);
      ParseSuffix(u, r, y, f + y);
      j := f + y;
    }
  }

  lemma SealedMark(t: string, b: string, y: nat)
    requires Sealed(t) && y < |t| && MarkAt(t, y)
    ensures MarkAt(t + b, y) && Parse(t + b, y) == Parse(t, y)
  {
    hide Parse, RefOk;
    SealedInFront(t, b, y);
  }

  lemma {:induction false} EndlessRuns(n: Sources, s: string, i: nat, k: nat, count: nat)
    requires Solid(n) && i <= |s| && WellFrom(s, i) && EndlessAt(n, s, i, k)
    ensures Iterate(n, Running(s, i), count) != Over
    decreases count
  {
    hide Solid, WellFrom, ActAt, Splice, EndlessAt;
    if count > 0 {
      MarkBehind(n, s, i, k);
      var f := FindMark(s, i).value;
      LaterWell(s, i, f);
      var j := EndlessStep(n, s, f, k);
      var a := ActAt(n, s, f);
      if a.Skip? {
        LaterWell(s, f, f + 1);
        StillBehind(n, s, f, k);
        EndlessRuns(n, s, f + 1, k, count - 1);
      } else {
        EndlessRuns(n, Splice(s, f, a.text, a.end), f, j, count - 1);
      }
    }
  }

  lemma MarkBehind(n: Sources, s: string, i: nat, k: nat)
    requires EndlessAt(n, s, i, k) && i <= |s|
    ensures FindMark(s, i).Some? && FindMark(s, i).value <= k && EndlessAt(n, s, FindMark(s, i).value, k)
  {
    hide Parse, Endless;
  }

  lemma StillBehind(n: Sources, s: string, f: nat, k: nat)
    requires EndlessAt(n, s, f, k) && f < k
    ensures EndlessAt(n, s, f + 1, k)
  {
    hide Parse, Endless;
  }

  /** Exactly when the inner loop ends: if and only if the references of the string, and those
      of the texts they bring in, nest to some finite depth. */
  lemma InnerLoopEndsIff(n: Sources, s: string)
    requires Solid(n) && WellFrom(s, 0)
    ensures (exists count :: Iterate(n, Running(s, 0), count) == Over) <==> exists d :: NestsFrom(n, s, 0, d)
  {
    hide Solid, WellFrom, Parse, NestsRef, Iterate;
    if d: nat :| NestsFrom(n, s, 0, d) {
      var count := NestedEnds(n, s, 0, d);
    } else {
      if forall k: nat :: 0 <= k < |s| && MarkAt(s, k) && Parse(s, k).Ref? ==>
          !Endless(n, Parse(s, k).format, Parse(s, k).key)
      {
        var d := CommonDepth(n, s, 0);
      }
      var k: nat :| k < |s| && MarkAt(s, k) && Parse(s, k).Ref?
        && Endless(n, Parse(s, k).format, Parse(s, k).key);
      forall count ensures Iterate(n, Running(s, 0), count) != Over {
        EndlessRuns(n, s, 0, k, count);
      }
    }
  }
}
