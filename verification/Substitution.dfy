/** The substitution of "@$" references inside a string (kveval.cpp, subresults_into): how a
    reference is read, when the two nested loops end, and what they leave behind. */
module Substitution {
  import opened Options

  // ----- what a name stands for -----

  /** An entry found by get_named_kvpair.  A submap offers its STR, and its VAL or evaluated
      EXPR; a tree that is not a submap offers nothing. */
  datatype Found =
    | Absent
    | Unevaluated
    | Integer(v: int)
    | Text(s: string)
    | Submap(str: Option<string>, val: Option<int>)

  /** The names in scope, and sprintf with one format and one integer. */
  datatype Sources = Sources(find: string -> Found, form: (string, int) -> string)

  predicate MarkAt(s: string, i: nat) {
    i + 1 < |s| && s[i] == '@' && s[i + 1] == '$'
  }

  predicate HasMark(s: string) {
    exists i: nat :: i < |s| && MarkAt(s, i)
  }

  /** get_named_string: the text of an entry counts only once its own references are gone,
      but the STR of a submap is taken as it is. */
  function NamedString(f: Found): Option<string> {
    match f
    case Text(s) => if HasMark(s) then None else Some(s)
    case Submap(str, _) => str
    case _ => None
  }

  /** get_named_value. */
  function NamedValue(f: Found): Option<int> {
    match f
    case Integer(v) => Some(v)
    case Submap(_, val) => val
    case _ => None
  }

  function Digits(n: nat): string {
    if n < 10 then [('0' as int + n) as char] else Digits(n / 10) + Digits(n % 10)
  }

  /** sprintf("%d"). */
  function Decimal(v: int): string {
    if v < 0 then "-" + Digits(-v) else Digits(v)
  }

  lemma {:induction false} DigitsOnly(n: nat, c: char)
    requires c in Digits(n)
    ensures '0' <= c <= '9'
  {
    if n >= 10 {
      if c in Digits(n / 10) { DigitsOnly(n / 10, c); } else { DigitsOnly(n % 10, c); }
    }
  }

  lemma DecimalIsPlain(v: int)
    ensures '@' !in Decimal(v) && '[' !in Decimal(v)
  {
    forall c | c in Decimal(v) ensures c != '@' && c != '[' {
      if c != '-' { DigitsOnly(if v < 0 then -v else v, c); }
    }
  }

  // ----- reading a reference -----

  predicate KeyChar(c: char) {
    'a' <= c <= 'z' || 'A' <= c <= 'Z' || '0' <= c <= '9' || c == '_' || c == '.'
  }

  function KeyRun(s: string, i: nat): (n: nat)
    requires i <= |s|
    ensures i + n <= |s|
    decreases |s| - i
  {
    if i < |s| && KeyChar(s[i]) then 1 + KeyRun(s, i + 1) else 0
  }

  /** The length of the key at i, with its optional leading '+', '!' or '/'. */
  function KeyLength(s: string, i: nat): (n: nat)
    requires i <= |s|
    ensures i + n <= |s|
  {
    if i < |s| && (s[i] == '+' || s[i] == '!' || s[i] == '/') then 1 + KeyRun(s, i + 1) else KeyRun(s, i)
  }

  /** The first ']' at or after i, or the length of the string. */
  function Bracket(s: string, i: nat): (e: nat)
    requires i <= |s|
    ensures i <= e <= |s| && (e < |s| ==> s[e] == ']')
    decreases |s| - i
  {
    if i == |s| || s[i] == ']' then i else Bracket(s, i + 1)
  }

  /** A reference, up to the end of what it replaces; a format without its ']' aborts. */
  datatype Parsed = Malformed | Ref(format: Option<string>, key: string, end: nat)

  /** A parenthesised key swallows one more character, whether or not it is a ')'. */
  function ParseKey(s: string, format: Option<string>, i: nat): (p: Parsed)
    requires i <= |s|
    ensures p.Ref? && p.format == format && i <= p.end <= |s|
  {
    if i < |s| && s[i] == '(' then
      var n := KeyLength(s, i + 1);
      Ref(format, s[i + 1..i + 1 + n], if i + 2 + n <= |s| then i + 2 + n else |s|)
    else
      var n := KeyLength(s, i);
      Ref(format, s[i..i + n], i + n)
  }

  function Parse(s: string, i: nat): (p: Parsed)
    requires MarkAt(s, i)
    ensures p.Ref? ==> i + 2 <= p.end <= |s|
    ensures p.Ref? && p.format.Some? ==>
      i + 3 + |p.format.value| < p.end && s[i + 2..i + 4 + |p.format.value|] == "[" + p.format.value + "]"
  {
    var k := i + 2;
    if k < |s| && s[k] == '[' then
      var e := Bracket(s, k + 1);
      if e == |s| then Malformed
      else
        var f := s[k + 1..e];
        assert s[k..e + 1] == "[" + f + "]";
        ParseKey(s, Some(f), e + 1)
    else ParseKey(s, None, k)
  }

  /** Where the key at i ends: the character there is looked at, and none behind it. */
  function KeyStop(s: string, i: nat): (j: nat)
    requires i <= |s|
    ensures i <= j <= |s|
  {
    if i < |s| && s[i] == '(' then i + 1 + KeyLength(s, i + 1) else i + KeyLength(s, i)
  }

  /** Where the key of the reference at mark i ends; past the string if it is malformed. */
  function RefStop(s: string, i: nat): nat
    requires MarkAt(s, i)
  {
    if i + 2 < |s| && s[i + 2] == '[' then
      var e := Bracket(s, i + 3);
      if e == |s| then |s| + 1 else KeyStop(s, e + 1)
    else KeyStop(s, i + 2)
  }

  // ----- one reference -----

  /** What the loop does at a mark: stop the program, pass on, or replace the reference.
      Only an unformatted replacement counts as news. */
  datatype Act = Fail | Skip | Put(text: string, end: nat, news: bool)

  function ActAt(n: Sources, s: string, i: nat): (a: Act)
    requires MarkAt(s, i)
    ensures a.Put? ==> i + 2 <= a.end <= |s|
  {
    match Parse(s, i)
    case Malformed => Fail
    case Ref(format, key, end) =>
      if key == "" then Skip
      else
        var str, val := NamedString(n.find(key)), NamedValue(n.find(key));
        if format.Some? && val.Some? then Put(n.form(format.value, val.value), end, false)
        else if str.Some? then Put(str.value, end, true)
        else if val.Some? then Put(Decimal(val.value), end, true)
        else Skip
  }

  function Splice(s: string, i: nat, text: string, end: nat): string
    requires i <= end <= |s|
  {
    s[..i] + text + s[end..]
  }

  // ----- what ends the loops -----

  /** How many marks a string holds. */
  function Marks(s: string): nat {
    if s == "" then 0 else (if MarkAt(s, 0) then 1 else 0) + Marks(s[1..])
  }

  /** A text that makes no reference and completes none in front of it. */
  predicate Inert(t: string) {
    !HasMark(t) && (t != "" ==> t[|t| - 1] != '@')
  }

  /** The first character from i on that is no flag, width or precision of a conversion. */
  function Conversion(f: string, i: nat): (j: nat)
    requires i <= |f|
    ensures i <= j <= |f|
    decreases |f| - i
  {
    if i < |f| && ('0' <= f[i] <= '9' || f[i] in "-+ #.") then Conversion(f, i + 1) else i
  }

  /** From i on, every '%' begins a conversion that prints an integer in digits, or is "%%". */
  predicate PrintsDigits(f: string, i: nat)
    decreases |f| - i
  {
    if i >= |f| then true
    else if f[i] != '%' then PrintsDigits(f, i + 1)
    else
      var j := Conversion(f, i + 1);
      j < |f| && f[j] in "diouxX%" && PrintsDigits(f, j + 1)
  }

  /** A format with no '@' that prints none: it has no conversion like %c. */
  predicate PlainText(f: string) {
    '@' !in f && PrintsDigits(f, 0)
  }

  /** sprintf copies what is not a conversion, and digits are no '@'. */
  ghost predicate Prints(form: (string, int) -> string) {
    forall f, v :: PlainText(f) ==> '@' !in form(f, v)
  }

  /** No text that a name stands for makes or completes a reference. */
  ghost predicate Gentle(n: Sources) {
    && Prints(n.form)
    && forall key :: NamedString(n.find(key)).Some? ==> Inert(NamedString(n.find(key)).value)
  }

  /** The format of the reference at mark k, if it has one, is plain. */
  predicate PlainFormat(s: string, k: nat)
    requires MarkAt(s, k)
  {
    k + 2 < |s| && s[k + 2] == '[' ==>
      var f, closed := s[k + 3..Bracket(s, k + 3)], Bracket(s, k + 3) < |s|;
      if closed then PlainText(f) else '@' !in f
  }

  /** A mark with no '@' before it, no mark right behind it, and a plain format. */
  predicate RegularAt(s: string, k: nat)
    requires MarkAt(s, k)
  {
    (k > 0 ==> s[k - 1] != '@') && !MarkAt(s, k + 2) && PlainFormat(s, k)
  }

  predicate Regular(s: string) {
    forall k: nat :: k < |s| && MarkAt(s, k) ==> RegularAt(s, k)
  }

  /** A mark more appears only where an '@' meets a '$'. */
  lemma {:induction false} MarksConcat(a: string, b: string)
    ensures Marks(a + b) == Marks(a) + Marks(b)
      + (if a != "" && b != "" && a[|a| - 1] == '@' && b[0] == '$' then 1 else 0)
  {
    if a == "" {
      assert a + b == b;
    } else {
      assert (a + b)[1..] == a[1..] + b;
      MarksConcat(a[1..], b);
    }
  }

  lemma {:induction false} NoMarks(s: string)
    ensures Marks(s) == 0 <==> !HasMark(s)
  {
    if s != "" {
      NoMarks(s[1..]);
      if i: nat :| i < |s| && MarkAt(s, i) {
        if i > 0 { assert MarkAt(s[1..], i - 1); }
      }
      if i: nat :| i < |s[1..]| && MarkAt(s[1..], i) { assert MarkAt(s, i + 1); }
    }
  }

  /** Replacing a reference by an inert text removes its mark and makes no other. */
  lemma SpliceShrinks(s: string, i: nat, text: string, end: nat)
    requires MarkAt(s, i) && i + 2 <= end <= |s| && Inert(text) && (i > 0 ==> s[i - 1] != '@')
    ensures Marks(Splice(s, i, text, end)) < Marks(s)
  {
    hide HasMark, Marks, Splice;
    var a, seg, b := s[..i], s[i..end], s[end..];
    SpliceConcat(s, i, text, end);
    NoMarks(text);
    MarksConcat(a, seg + b);
    MarksConcat(seg, b);
    MarksConcat(a, text + b);
    MarksConcat(text, b);
    FirstMark(seg);
  }

  lemma SpliceConcat(s: string, i: nat, text: string, end: nat)
    requires i <= end <= |s|
    ensures s == s[..i] + (s[i..end] + s[end..])
    ensures Splice(s, i, text, end) == s[..i] + (text + s[end..])
  {
  }

  lemma FirstMark(s: string)
    ensures MarkAt(s, 0) ==> Marks(s) >= 1
  {
  }

  /** What is put in place of a reference is inert. */
  lemma PutIsInert(n: Sources, s: string, i: nat)
    requires Gentle(n) && MarkAt(s, i) && PlainFormat(s, i) && ActAt(n, s, i).Put?
    ensures Inert(ActAt(n, s, i).text)
  {
    hide Decimal, ParseKey, Inert;
    var a, p := ActAt(n, s, i), Parse(s, i);
    if p.format.Some? && NamedValue(n.find(p.key)).Some? {
      var f, v := p.format.value, NamedValue(n.find(p.key)).value;
      assert PlainText(f);
      assert a.text == n.form(f, v);
      PlainIsInert(a.text);
    } else if NamedString(n.find(p.key)).None? {
      DecimalIsPlain(NamedValue(n.find(p.key)).value);
      PlainIsInert(a.text);
    }
  }

  lemma PlainIsInert(t: string)
    requires '@' !in t
    ensures Inert(t) && Regular(t) && Marks(t) == 0
  {
    NoMarks(t);
  }

  /** Every replacement uses up a mark. */
  lemma PutShrinks(n: Sources, s: string, i: nat)
    requires Gentle(n) && Regular(s) && MarkAt(s, i) && ActAt(n, s, i).Put?
    ensures var a := ActAt(n, s, i); Marks(Splice(s, i, a.text, a.end)) < Marks(s)
  {
    hide Splice, Inert, Gentle, PlainFormat, Marks;
    var a := ActAt(n, s, i);
    assert RegularAt(s, i);
    PutIsInert(n, s, i);
    SpliceShrinks(s, i, a.text, a.end);
  }

  // ----- what a replacement keeps -----

  lemma SpliceAt(s: string, i: nat, text: string, end: nat, k: nat)
    requires i <= end <= |s| && k < |Splice(s, i, text, end)|
    ensures |Splice(s, i, text, end)| == i + |text| + |s| - end
    ensures Splice(s, i, text, end)[k] ==
      if k < i then s[k] else if k < i + |text| then text[k - i] else s[k - i - |text| + end]
  {
  }

  /** The marks of a spliced string are those before the cut and those behind it. */
  lemma SplicedMark(s: string, i: nat, text: string, end: nat, k: nat)
    requires i <= end <= |s| && Inert(text) && (i > 0 ==> s[i - 1] != '@')
    requires MarkAt(Splice(s, i, text, end), k)
    ensures (k + 1 < i && MarkAt(s, k)) || (k >= i + |text| && MarkAt(s, k - i - |text| + end))
  {
    hide Splice;
    var j: nat := if i <= k < i + |text| then k - i else 0;
    assert !MarkAt(text, j);
    SpliceAt(s, i, text, end, k);
    SpliceAt(s, i, text, end, k + 1);
  }

  /** Two strings that agree before i, and two that agree from x and y on. */
  predicate SamePrefix(s: string, r: string, i: nat) {
    i <= |s| && i <= |r| && s[..i] == r[..i]
  }

  predicate SameSuffix(s: string, r: string, x: nat, y: nat) {
    x <= |s| && y <= |r| && s[x..] == r[y..]
  }

  lemma SuffixShift(s: string, r: string, x: nat, y: nat, d: nat)
    requires SameSuffix(s, r, x, y) && x + d <= |s|
    ensures SameSuffix(s, r, x + d, y + d)
    ensures x + d < |s| ==> s[x + d] == r[y + d]
  {
    assert s[x + d..] == s[x..][d..] && r[y + d..] == r[y..][d..];
    if x + d < |s| { assert s[x..][d] == r[y..][d]; }
  }

  lemma SameLength(s: string, r: string, x: nat, y: nat)
    requires SameSuffix(s, r, x, y)
    ensures x <= |s| && y <= |r| && |s| - x == |r| - y
  {
    assert |s[x..]| == |r[y..]|;
  }

  lemma {:induction false} BracketPrefix(s: string, r: string, k: nat, i: nat)
    requires k <= i <= |s| && i <= |r| && s[..i] == r[..i] && Bracket(s, k) < i
    ensures Bracket(r, k) == Bracket(s, k)
    decreases i - k
  {
    assert s[..i][k] == r[..i][k];
    if s[k] != ']' { BracketPrefix(s, r, k + 1, i); }
  }

  lemma {:induction false} BracketSuffix(s: string, r: string, x: nat, y: nat)
    requires SameSuffix(s, r, x, y)
    ensures Bracket(s, x) - x == Bracket(r, y) - y
    decreases |s| - x
  {
    hide SameSuffix;
    SameLength(s, r, x, y);
    if x < |s| {
      SuffixShift(s, r, x, y, 0);
      SuffixShift(s, r, x, y, 1);
      if s[x] != ']' { BracketSuffix(s, r, x + 1, y + 1); }
    }
  }

  /** A plain format is over before the next mark. */
  lemma FormatEnds(s: string, k: nat, i: nat)
    requires MarkAt(s, k) && RegularAt(s, k) && MarkAt(s, i) && k < i
    ensures k + 2 < i
    ensures s[k + 2] == '[' ==> Bracket(s, k + 3) < i
  {
    if s[k + 2] == '[' {
      var e := Bracket(s, k + 3);
      forall x | k + 3 <= x < e ensures s[x] != '@' {
        assert s[k + 3..e][x - k - 3] == s[x];
      }
    }
  }

  lemma RegularPrefix(s: string, r: string, i: nat, k: nat)
    requires SamePrefix(s, r, i) && MarkAt(s, k) && k + 1 < i && RegularAt(s, k) && MarkAt(s, i) && !MarkAt(r, k + 2)
    ensures MarkAt(r, k) && RegularAt(r, k)
  {
    FormatEnds(s, k, i);
    assert forall x :: 0 <= x < i ==> s[..i][x] == r[..i][x];
    if s[k + 2] == '[' {
      var e := Bracket(s, k + 3);
      BracketPrefix(s, r, k + 3, i);
      SlicePrefix(s, r, i, k + 3, e);
    }
  }

  lemma SliceSuffix(s: string, r: string, x: nat, y: nat, m: nat)
    requires SameSuffix(s, r, x, y) && x + m <= |s|
    ensures y + m <= |r| && s[x..x + m] == r[y..y + m]
  {
    SameLength(s, r, x, y);
    forall j | x <= j < x + m ensures s[j] == r[j - x + y] {
      assert s[x..][j - x] == r[y..][j - x];
    }
  }

  lemma MarkSuffix(s: string, r: string, x: nat, y: nat)
    requires SameSuffix(s, r, x, y)
    ensures MarkAt(s, x) <==> MarkAt(r, y)
  {
    hide SameSuffix;
    SameLength(s, r, x, y);
    SuffixShift(s, r, x, y, 0);
    if x < |s| { SuffixShift(s, r, x, y, 1); }
  }

  lemma FormatSuffix(s: string, r: string, x: nat, y: nat)
    requires SameSuffix(s, r, x, y) && MarkAt(s, x) && MarkAt(r, y) && PlainFormat(s, x)
    ensures PlainFormat(r, y)
  {
    hide Bracket, SameSuffix;
    SameLength(s, r, x, y);
    SuffixShift(s, r, x, y, 2);
    if x + 2 < |s| && s[x + 2] == '[' {
      SuffixShift(s, r, x, y, 3);
      BracketSuffix(s, r, x + 3, y + 3);
      SliceSuffix(s, r, x + 3, y + 3, Bracket(s, x + 3) - (x + 3));
    }
  }

  lemma RegularSuffix(s: string, r: string, x: nat, y: nat)
    requires SameSuffix(s, r, x, y) && MarkAt(s, x) && RegularAt(s, x) && (y > 0 ==> r[y - 1] != '@')
    ensures MarkAt(r, y) && RegularAt(r, y)
  {
    hide PlainFormat, SameSuffix;
    MarkSuffix(s, r, x, y);
    SuffixShift(s, r, x, y, 2);
    MarkSuffix(s, r, x + 2, y + 2);
    FormatSuffix(s, r, x, y);
  }

  lemma SpliceParts(s: string, i: nat, text: string, end: nat)
    requires i <= end <= |s|
    ensures var r := Splice(s, i, text, end);
      && SamePrefix(s, r, i) && SameSuffix(s, r, end, i + |text|)
      && (i + |text| > 0 ==> r[i + |text| - 1] == (if text != "" then text[|text| - 1] else s[i - 1]))
  {
  }

  /** The marks of a spliced string stay regular. */
  lemma SpliceRegular(s: string, i: nat, text: string, end: nat)
    requires Regular(s) && MarkAt(s, i) && i + 2 <= end <= |s| && Inert(text)
    ensures Regular(Splice(s, i, text, end))
  {
    hide Splice, RegularAt, Inert;
    var r := Splice(s, i, text, end);
    SpliceParts(s, i, text, end);
    NoAtBefore(s, i, text);
    forall k: nat | k < |r| && MarkAt(r, k) ensures RegularAt(r, k) {
      SplicedMark(s, i, text, end, k);
      if k + 1 < i && MarkAt(s, k) {
        NoDoubleMark(s, i, text, end, k);
        RegularPrefix(s, r, i, k);
      } else {
        RegularBehind(s, i, text, end, k);
      }
    }
  }

  lemma NoAtBefore(s: string, i: nat, text: string)
    requires Regular(s) && MarkAt(s, i) && Inert(text)
    ensures i > 0 ==> s[i - 1] != '@'
    ensures text != "" ==> text[|text| - 1] != '@'
  {
    assert RegularAt(s, i);
  }

  lemma NoDoubleMark(s: string, i: nat, text: string, end: nat, k: nat)
    requires Regular(s) && MarkAt(s, i) && i + 2 <= end <= |s| && Inert(text) && (i > 0 ==> s[i - 1] != '@')
    requires k + 1 < i && MarkAt(s, k)
    ensures !MarkAt(Splice(s, i, text, end), k + 2)
  {
    hide Splice, Inert;
    assert RegularAt(s, k);
    if MarkAt(Splice(s, i, text, end), k + 2) { SplicedMark(s, i, text, end, k + 2); }
  }

  lemma RegularBehind(s: string, i: nat, text: string, end: nat, k: nat)
    requires Regular(s) && i <= end <= |s| && k >= i + |text|
    requires (i > 0 ==> s[i - 1] != '@') && (text != "" ==> text[|text| - 1] != '@')
    requires MarkAt(s, k - i - |text| + end)
    ensures MarkAt(Splice(s, i, text, end), k) && RegularAt(Splice(s, i, text, end), k)
  {
    hide Splice;
    var r, x := Splice(s, i, text, end), k - i - |text| + end;
    SpliceParts(s, i, text, end);
    assert RegularAt(s, x);
    SuffixShift(s, r, end, i + |text|, x - end);
    if x > end { SuffixShift(s, r, end, i + |text|, x - end - 1); }
    RegularSuffix(s, r, x, k);
  }

  // ----- the two loops -----

  /** find("@$", i). */
  function FindMark(s: string, i: nat): (r: Option<nat>)
    requires i <= |s|
    ensures r.Some? ==> i <= r.value && MarkAt(s, r.value) && forall j: nat :: i <= j < r.value ==> !MarkAt(s, j)
    ensures r.None? ==> forall j: nat :: i <= j ==> !MarkAt(s, j)
    decreases |s| - i
  {
    if i == |s| then None else if MarkAt(s, i) then Some(i) else FindMark(s, i + 1)
  }

  datatype Swept = Broken | Swept(text: string, changed: bool)

  /** The inner loop, from position i on. */
  ghost function Sweep(n: Sources, s: string, i: nat, changed: bool): (r: Swept)
    requires Gentle(n) && Regular(s) && i <= |s|
    decreases Marks(s), |s| - i
  {
    match FindMark(s, i)
    case None => Swept(s, changed)
    case Some(k) =>
      match ActAt(n, s, k)
      case Fail => Broken
      case Skip => Sweep(n, s, k + 1, changed)
      case Put(text, end, news) =>
        PutShrinks(n, s, k);
        PutRegular(n, s, k);
        Sweep(n, Splice(s, k, text, end), k, changed || news)
  }

  lemma PutRegular(n: Sources, s: string, i: nat)
    requires Gentle(n) && Regular(s) && MarkAt(s, i) && ActAt(n, s, i).Put?
    ensures var a := ActAt(n, s, i);
      Inert(a.text) && Regular(Splice(s, i, a.text, a.end)) && i <= |Splice(s, i, a.text, a.end)|
  {
    hide Inert, Gentle, PlainFormat;
    var a := ActAt(n, s, i);
    assert RegularAt(s, i);
    PutIsInert(n, s, i);
    SpliceRegular(s, i, a.text, a.end);
  }

  /** A string that a replacement leaves with no '@' at its end. */
  predicate EndsWell(s: string) {
    s != "" ==> s[|s| - 1] != '@'
  }

  lemma SpliceEndsWell(s: string, i: nat, text: string, end: nat)
    requires Regular(s) && MarkAt(s, i) && i <= end <= |s| && Inert(text) && EndsWell(s)
    ensures EndsWell(Splice(s, i, text, end))
  {
    hide HasMark, PlainFormat;
    assert RegularAt(s, i);
  }

  /** A sweep keeps the string regular and uses up a mark for every change it reports. */
  lemma {:induction false} SweepShrinks(n: Sources, s: string, i: nat, changed: bool)
    requires Gentle(n) && Regular(s) && i <= |s|
    ensures var r := Sweep(n, s, i, changed); r.Swept? ==>
      && Regular(r.text) && (EndsWell(s) ==> EndsWell(r.text))
      && Marks(r.text) <= Marks(s) && (changed ==> r.changed)
      && (r.changed && !changed ==> Marks(r.text) < Marks(s))
    decreases Marks(s), |s| - i
  {
    hide ActAt, Gentle, Splice, Marks, Regular, EndsWell, Inert;
    var f := FindMark(s, i);
    if f.Some? {
      var a := ActAt(n, s, f.value);
      if a.Skip? {
        SweepShrinks(n, s, f.value + 1, changed);
      } else if a.Put? {
        PutShrinks(n, s, f.value);
        PutRegular(n, s, f.value);
        if EndsWell(s) { SpliceEndsWell(s, f.value, a.text, a.end); }
        SweepShrinks(n, Splice(s, f.value, a.text, a.end), f.value, changed || a.news);
      }
    }
  }

  /** The outer loop: sweep until nothing is reported. */
  ghost function Substitute(n: Sources, s: string, ever: bool): (r: Swept)
    requires Gentle(n) && Regular(s)
    decreases Marks(s)
  {
    var r := Sweep(n, s, 0, false);
    if r.Broken? then Broken
    else if !r.changed then Swept(r.text, ever)
    else
      SweepShrinks(n, s, 0, false);
      Substitute(n, r.text, true)
  }

  /** subresults_into.  With gentle names both loops end on every regular string. */
  method SubresultsInto(n: Sources, sval: string) returns (text: string, ever: bool, ok: bool)
    requires Gentle(n) && Regular(sval)
    ensures Substitute(n, sval, false) == if ok then Swept(text, ever) else Broken
  {
    hide Regular, Gentle, Marks, ActAt, MarkAt;
    text, ever, ok := sval, false, true;
    var first := FindFrom(text, 0);
    if first.None? {
      assert Sweep(n, sval, 0, false) == Swept(sval, false);
      return;
    }
    var changed := true;
    while changed
      invariant ok && Regular(text)
      invariant if changed then Substitute(n, text, ever) == Substitute(n, sval, false)
                else Substitute(n, sval, false) == Swept(text, ever)
      decreases Marks(text), changed
    {
      SweepShrinks(n, text, 0, false);
      text, changed, ok := SweepOnce(n, text);
      if !ok { return; }
      ever := ever || changed;
    }
  }

  method SweepOnce(n: Sources, s0: string) returns (s: string, changed: bool, ok: bool)
    requires Gentle(n) && Regular(s0)
    ensures Sweep(n, s0, 0, false) == if ok then Swept(s, changed) else Broken
  {
    hide ActAt, Gentle, Marks, Regular, Splice, Inert, FindMark;
    s, changed, ok := s0, false, true;
    var sloc := FindFrom(s, 0);
    SweepJump(n, s, 0, false);
    while sloc.Some?
      invariant ok && Regular(s) && (sloc.Some? ==> MarkAt(s, sloc.value))
      invariant sloc.Some? ==> Sweep(n, s, sloc.value, changed) == Sweep(n, s0, 0, false)
      invariant sloc.None? ==> Swept(s, changed) == Sweep(n, s0, 0, false)
      decreases Marks(s), if sloc.Some? then 1 + |s| - sloc.value else 0
    {
      var k := sloc.value;
      MarkFound(s, k);
      var a := ActAt(n, s, k);
      match a
      case Fail => return s, changed, false;
      case Skip =>
        sloc := FindFrom(s, k + 1);
        SweepJump(n, s, k + 1, changed);
      case Put(text, end, news) =>
        PutShrinks(n, s, k);
        PutRegular(n, s, k);
        s, changed := Splice(s, k, text, end), changed || news;
        sloc := FindFrom(s, k);
        SweepJump(n, s, k, changed);
    }
  }

  lemma MarkFound(s: string, k: nat)
    requires MarkAt(s, k)
    ensures FindMark(s, k) == Some(k)
  {
  }

  /** Sweeping from i is sweeping from the next mark. */
  lemma SweepJump(n: Sources, s: string, i: nat, changed: bool)
    requires Gentle(n) && Regular(s) && i <= |s|
    ensures FindMark(s, i).Some? ==> Sweep(n, s, FindMark(s, i).value, changed) == Sweep(n, s, i, changed)
    ensures FindMark(s, i).None? ==> Sweep(n, s, i, changed) == Swept(s, changed)
  {
    hide Gentle, ActAt, Splice, Marks, Regular;
    var f := FindMark(s, i);
    if f.Some? { assert FindMark(s, f.value) == f; }
  }

  method FindFrom(s: string, from: nat) returns (r: Option<nat>)
    requires from <= |s|
    ensures r == FindMark(s, from)
  {
    var i := from;
    while i < |s| && !MarkAt(s, i)
      invariant from <= i <= |s| && FindMark(s, i) == FindMark(s, from)
    {
      i := i + 1;
    }
    r := if i < |s| then Some(i) else None;
  }

  // ----- what the loops leave behind -----

  /** Nothing in the string can be replaced. */
  ghost predicate Quiet(n: Sources, s: string) {
    forall i: nat :: MarkAt(s, i) ==> ActAt(n, s, i) == Skip
  }

  /** A string without resolvable references is left alone. */
  lemma QuietIsKept(n: Sources, s: string)
    requires Gentle(n) && Regular(s)
    ensures Quiet(n, s) ==> Substitute(n, s, false) == Swept(s, false)
  {
    if Quiet(n, s) { QuietSweep(n, s, 0); }
  }

  lemma {:induction false} QuietSweep(n: Sources, s: string, i: nat)
    requires Gentle(n) && Regular(s) && Quiet(n, s) && i <= |s|
    ensures Sweep(n, s, i, false) == Swept(s, false)
    decreases |s| - i
  {
    hide Gentle, ActAt, Regular, Marks;
    var f := FindMark(s, i);
    if f.Some? { QuietSweep(n, s, f.value + 1); }
  }

  /** Substitution keeps a string regular, never adds a mark, and uses one up for every change
      it reports. */
  lemma {:induction false} SubstituteShrinks(n: Sources, s: string, ever: bool)
    requires Gentle(n) && Regular(s)
    ensures var r := Substitute(n, s, ever); r.Swept? ==>
      && Regular(r.text) && (EndsWell(s) ==> EndsWell(r.text))
      && Marks(r.text) <= Marks(s) && (ever ==> r.changed)
      && (r.changed && !ever ==> Marks(r.text) < Marks(s))
    decreases Marks(s)
  {
    hide Gentle, Marks, Sweep, Regular, EndsWell;
    SweepShrinks(n, s, 0, false);
    var r := Sweep(n, s, 0, false);
    if r.Swept? && r.changed { SubstituteShrinks(n, r.text, true); }
  }

  // ----- when nothing resolvable is left -----

  /** No reference begins where the key of an earlier one ends, as in "@$a@$b". */
  ghost predicate Detached(s: string) {
    forall k: nat, i: nat :: k < i && MarkAt(s, k) && MarkAt(s, i) ==> RefStop(s, k) != i
  }

  /** No reference has a format. */
  ghost predicate Unformatted(s: string) {
    forall k: nat :: MarkAt(s, k) ==> !(k + 2 < |s| && s[k + 2] == '[')
  }

  lemma {:induction false} RunPrefix(s: string, r: string, x: nat, i: nat)
    requires SamePrefix(s, r, i) && x <= i && x + KeyRun(s, x) < i
    ensures KeyRun(r, x) == KeyRun(s, x)
    decreases i - x
  {
    assert s[..i][x] == r[..i][x];
    if KeyChar(s[x]) { RunPrefix(s, r, x + 1, i); }
  }

  lemma LengthPrefix(s: string, r: string, x: nat, i: nat)
    requires SamePrefix(s, r, i) && x <= i && x + KeyLength(s, x) < i
    ensures KeyLength(r, x) == KeyLength(s, x)
  {
    assert s[..i][x] == r[..i][x];
    if s[x] == '+' || s[x] == '!' || s[x] == '/' { RunPrefix(s, r, x + 1, i); } else { RunPrefix(s, r, x, i); }
  }

  lemma SlicePrefix(s: string, r: string, i: nat, x: nat, y: nat)
    requires SamePrefix(s, r, i) && x <= y <= i
    ensures s[x..y] == r[x..y]
  {
    forall j | x <= j < y ensures s[j] == r[j] {
      assert s[..i][j] == r[..i][j];
    }
  }

  /** A key that ends before i reads the same whatever follows. */
  lemma KeyPrefix(s: string, r: string, format: Option<string>, x: nat, i: nat)
    requires SamePrefix(s, r, i) && x <= i && KeyStop(s, x) < i
    ensures KeyStop(r, x) == KeyStop(s, x) && ParseKey(r, format, x) == ParseKey(s, format, x)
  {
    hide KeyLength;
    assert s[..i][x] == r[..i][x];
    if s[x] == '(' {
      LengthPrefix(s, r, x + 1, i);
      SlicePrefix(s, r, i, x + 1, KeyStop(s, x));
    } else {
      LengthPrefix(s, r, x, i);
      SlicePrefix(s, r, i, x, KeyStop(s, x));
    }
  }

  /** So does the whole reference. */
  lemma RefPrefix(s: string, r: string, k: nat, i: nat)
    requires SamePrefix(s, r, i) && MarkAt(s, k) && k + 2 < i && RefStop(s, k) < i
    ensures MarkAt(r, k) && RefStop(r, k) == RefStop(s, k) && Parse(r, k) == Parse(s, k)
  {
    hide KeyStop, ParseKey, Bracket;
    assert forall x :: 0 <= x < i ==> s[..i][x] == r[..i][x];
    if s[k + 2] == '[' {
      var e := Bracket(s, k + 3);
      BracketPrefix(s, r, k + 3, i);
      SlicePrefix(s, r, i, k + 3, e);
      KeyPrefix(s, r, Some(s[k + 3..e]), e + 1, i);
    } else {
      KeyPrefix(s, r, None, k + 2, i);
    }
  }

  lemma {:induction false} RunStops(s: string, x: nat, i: nat)
    requires x <= i < |s| && s[i] == '@'
    ensures x + KeyRun(s, x) <= i
    decreases i - x
  {
    if KeyChar(s[x]) { RunStops(s, x + 1, i); }
  }

  lemma KeyStops(s: string, x: nat, i: nat)
    requires x <= i < |s| && s[i] == '@'
    ensures KeyStop(s, x) <= i
  {
    RunStops(s, x, i);
    if x < i { RunStops(s, x + 1, i); }
    if x + 1 < i { RunStops(s, x + 2, i); }
  }

  /** The key of a reference ends at the next mark at the latest. */
  lemma RefStops(s: string, k: nat, i: nat)
    requires Regular(s) && MarkAt(s, k) && MarkAt(s, i) && k < i
    ensures k + 2 < i && RefStop(s, k) <= i
  {
    hide KeyStop, Bracket;
    assert RegularAt(s, k);
    FormatEnds(s, k, i);
    if s[k + 2] == '[' { KeyStops(s, Bracket(s, k + 3) + 1, i); } else { KeyStops(s, k + 2, i); }
  }

  /** In a detached string, what comes before a mark does not depend on what replaces it. */
  lemma PassedStays(s: string, k: nat, i: nat, text: string, end: nat)
    requires Regular(s) && Detached(s) && MarkAt(s, k) && MarkAt(s, i) && k < i && i <= end <= |s|
    ensures var r := Splice(s, i, text, end);
      MarkAt(r, k) && RefStop(s, k) < i && RefStop(r, k) == RefStop(s, k) && Parse(r, k) == Parse(s, k)
  {
    hide Regular, RefStop, Parse, Splice;
    SpliceParts(s, i, text, end);
    RefStops(s, k, i);
    RefPrefix(s, Splice(s, i, text, end), k, i);
  }

  lemma {:induction false} RunSuffix(s: string, r: string, x: nat, y: nat)
    requires SameSuffix(s, r, x, y)
    ensures KeyRun(s, x) == KeyRun(r, y)
    decreases |s| - x
  {
    SuffixShift(s, r, x, y, 0);
    assert |s| - x == |r| - y;
    if x < |s| {
      SuffixShift(s, r, x, y, 1);
      RunSuffix(s, r, x + 1, y + 1);
    }
  }

  lemma KeySuffix(s: string, r: string, x: nat, y: nat)
    requires SameSuffix(s, r, x, y)
    ensures KeyStop(s, x) - x == KeyStop(r, y) - y
  {
    assert |s[x..]| == |r[y..]|;
    SuffixShift(s, r, x, y, 0);
    RunSuffix(s, r, x, y);
    if x < |s| { SuffixShift(s, r, x, y, 1); RunSuffix(s, r, x + 1, y + 1); }
    if x + 1 < |s| { SuffixShift(s, r, x, y, 2); RunSuffix(s, r, x + 2, y + 2); }
  }

  lemma RefSuffix(s: string, r: string, x: nat, y: nat)
    requires SameSuffix(s, r, x, y) && MarkAt(s, x)
    ensures MarkAt(r, y) && RefStop(s, x) - x == RefStop(r, y) - y
  {
    hide KeyStop, Bracket;
    assert |s[x..]| == |r[y..]|;
    SuffixShift(s, r, x, y, 0); SuffixShift(s, r, x, y, 1); SuffixShift(s, r, x, y, 2);
    if x + 2 < |s| && s[x + 2] == '[' {
      SuffixShift(s, r, x, y, 3);
      BracketSuffix(s, r, x + 3, y + 3);
      var m := Bracket(s, x + 3) - x;
      if x + m < |s| {
        SuffixShift(s, r, x, y, m + 1);
        KeySuffix(s, r, x + m + 1, y + m + 1);
      }
    } else {
      KeySuffix(s, r, x + 2, y + 2);
    }
  }

  lemma SpliceDetached(s: string, i: nat, text: string, end: nat)
    requires Regular(s) && Detached(s) && MarkAt(s, i) && i + 2 <= end <= |s| && Inert(text)
    ensures Detached(Splice(s, i, text, end))
  {
    hide Splice, Regular, RefStop, Inert, SamePrefix, SameSuffix;
    var r := Splice(s, i, text, end);
    NoAtBefore(s, i, text);
    SpliceParts(s, i, text, end);
    forall k: nat, j: nat | k < j && MarkAt(r, k) && MarkAt(r, j) ensures RefStop(r, k) != j {
      SplicedMark(s, i, text, end, k);
      SplicedMark(s, i, text, end, j);
      if k + 1 < i && MarkAt(s, k) {
        PassedStays(s, k, i, text, end);
      } else {
        var x, y := k - i - |text| + end, j - i - |text| + end;
        SuffixShift(s, r, end, i + |text|, x - end);
        RefSuffix(s, r, x, k);
        assert x < y && MarkAt(s, y) && RefStop(s, x) != y;
      }
    }
  }

  lemma SpliceUnformatted(s: string, i: nat, text: string, end: nat)
    requires Regular(s) && Unformatted(s) && MarkAt(s, i) && i + 2 <= end <= |s| && Inert(text)
    ensures Unformatted(Splice(s, i, text, end))
  {
    hide Splice, Regular, Inert;
    var r := Splice(s, i, text, end);
    NoAtBefore(s, i, text);
    SpliceParts(s, i, text, end);
    forall k: nat | MarkAt(r, k) ensures !(k + 2 < |r| && r[k + 2] == '[') {
      SplicedMark(s, i, text, end, k);
      if k + 1 < i && MarkAt(s, k) {
        RefStops(s, k, i);
        assert s[..i][k + 2] == r[..i][k + 2];
      } else {
        var x := k - i - |text| + end;
        assert MarkAt(s, x) && |s[end..]| == |r[i + |text|..]|;
        if x + 2 < |s| { SuffixShift(s, r, end, i + |text|, x + 2 - end); }
      }
    }
  }

  /** Every mark before i has been passed over. */
  ghost predicate Passed(n: Sources, s: string, i: nat) {
    forall k: nat :: k < i && MarkAt(s, k) ==> ActAt(n, s, k) == Skip
  }

  lemma PassedPut(n: Sources, s: string, i: nat, text: string, end: nat)
    requires Regular(s) && Detached(s) && Passed(n, s, i) && MarkAt(s, i) && i + 2 <= end <= |s| && Inert(text)
    ensures Passed(n, Splice(s, i, text, end), i)
  {
    hide Splice, Regular, Detached, Parse, Inert;
    var r := Splice(s, i, text, end);
    NoAtBefore(s, i, text);
    forall k: nat | k < i && MarkAt(r, k) ensures ActAt(n, r, k) == Skip {
      SplicedMark(s, i, text, end, k);
      PassedStays(s, k, i, text, end);
    }
  }

  /** A sweep that reports nothing leaves nothing it could have replaced. */
  lemma {:induction false} SweepQuiet(n: Sources, s: string, i: nat, changed: bool)
    requires Gentle(n) && Regular(s) && (Detached(s) || Unformatted(s)) && i <= |s|
    requires !changed ==> Passed(n, s, i)
    ensures var r := Sweep(n, s, i, changed); r.Swept? ==>
      (Detached(r.text) || Unformatted(r.text)) && (!r.changed ==> Quiet(n, r.text))
    decreases Marks(s), |s| - i
  {
    hide ActAt, Gentle, Splice, Marks, Detached, Unformatted, Regular, Inert;
    var f := FindMark(s, i);
    if f.Some? {
      var a := ActAt(n, s, f.value);
      if a.Skip? {
        SweepQuiet(n, s, f.value + 1, changed);
      } else if a.Put? {
        PutShrinks(n, s, f.value);
        PutRegular(n, s, f.value);
        PutKind(n, s, f.value);
        if Detached(s) {
          SpliceDetached(s, f.value, a.text, a.end);
          if !changed { PassedPut(n, s, f.value, a.text, a.end); }
        } else {
          SpliceUnformatted(s, f.value, a.text, a.end);
        }
        SweepQuiet(n, Splice(s, f.value, a.text, a.end), f.value, changed || a.news);
      }
    }
  }

  lemma PutKind(n: Sources, s: string, i: nat)
    requires MarkAt(s, i) && ActAt(n, s, i).Put?
    ensures i + 2 <= ActAt(n, s, i).end <= |s|
    ensures Unformatted(s) ==> ActAt(n, s, i).news
  {
    hide ParseKey, Bracket;
  }

  /** At exit no reference that could be resolved remains, if no reference abuts the key of
      an earlier one, or if none has a format. */
  lemma {:induction false} ExitIsQuiet(n: Sources, s: string, ever: bool)
    requires Gentle(n) && Regular(s) && (Detached(s) || Unformatted(s))
    ensures Substitute(n, s, ever).Swept? ==> Quiet(n, Substitute(n, s, ever).text)
    decreases Marks(s)
  {
    hide Gentle, Unformatted, Detached, Marks, ActAt, Sweep, Regular, Quiet;
    SweepQuiet(n, s, 0, false);
    SweepShrinks(n, s, 0, false);
    var r := Sweep(n, s, 0, false);
    if r.Swept? && r.changed { ExitIsQuiet(n, r.text, true); }
  }

  /** Without formats, a string reported unchanged is unchanged, and nothing in it can be
      replaced. */
  lemma SilentMeansQuiet(n: Sources, s: string)
    requires Gentle(n) && Regular(s) && Unformatted(s)
    ensures var r := Substitute(n, s, false);
      r.Swept? ==> (r.changed <==> r.text != s) && (r.changed <==> !Quiet(n, s)) && Quiet(n, r.text)
  {
    hide Gentle, Unformatted, Marks, ActAt, Sweep, Regular, Quiet;
    ExitIsQuiet(n, s, false);
    SilentSweep(n, s, 0, false);
    SweepShrinks(n, s, 0, false);
    SubstituteShrinks(n, s, false);
    QuietIsKept(n, s);
    var r := Sweep(n, s, 0, false);
    if r.Swept? && r.changed { SubstituteShrinks(n, r.text, true); }
  }

  lemma {:induction false} SilentSweep(n: Sources, s: string, i: nat, changed: bool)
    requires Gentle(n) && Regular(s) && Unformatted(s) && i <= |s|
    ensures var r := Sweep(n, s, i, changed); r.Swept? && !r.changed ==> r.text == s
    decreases Marks(s), |s| - i
  {
    hide Gentle, Unformatted, Marks, ActAt, Regular, Splice, Inert;
    var f := FindMark(s, i);
    if f.Some? {
      var a := ActAt(n, s, f.value);
      if a.Skip? {
        SilentSweep(n, s, f.value + 1, changed);
      } else if a.Put? {
        PutKind(n, s, f.value);
        PutShrinks(n, s, f.value);
        PutRegular(n, s, f.value);
        SweepShrinks(n, Splice(s, f.value, a.text, a.end), f.value, true);
      }
    }
  }

  // ----- inputs for which the loops go wrong -----

  /** The inner loop's state after a number of iterations, gentle names or not. */
  datatype Running = Running(s: string, i: nat) | Over

  function Iterate(n: Sources, r: Running, count: nat): Running
    decreases count
  {
    if count == 0 || r.Over? then r
    else if r.i > |r.s| || FindMark(r.s, r.i).None? then Over
    else
      var k := FindMark(r.s, r.i).value;
      match ActAt(n, r.s, k)
      case Fail => Over
      case Skip => Iterate(n, Running(r.s, k + 1), count - 1)
      case Put(text, end, _) => Iterate(n, Running(Splice(r.s, k, text, end), k), count - 1)
  }

  /** A submap whose STR refers to the submap itself. */
  function SelfReference(form: (string, int) -> string): Sources {
    Sources(key => if key == "X" then Submap(Some("@$(X)"), None) else Absent, form)
  }

  /** The loop then never ends: the STR of a submap is not checked for references. */
  lemma {:induction false} SelfReferenceLoops(form: (string, int) -> string, count: nat)
    ensures Iterate(SelfReference(form), Running("@$(X)", 0), count) == Running("@$(X)", 0)
  {
    if count > 0 {
      SelfReferenceStep(form);
      SelfReferenceLoops(form, count - 1);
    }
  }

  lemma SelfReferenceStep(form: (string, int) -> string)
    ensures MarkAt("@$(X)", 0) && FindMark("@$(X)", 0) == Some(0)
    ensures ActAt(SelfReference(form), "@$(X)", 0) == Put("@$(X)", 5, true)
    ensures Splice("@$(X)", 0, "@$(X)", 5) == "@$(X)"
  {
  }

  /** One entry "x" worth 7 and one entry "ab7" worth 1. */
  function TwoValues(): Sources {
    Sources(key => if key == "x" then Integer(7) else if key == "ab7" then Integer(1) else Absent,
          (f: string, v: int) => if f == "%d" then Decimal(v) else "")
  }

  /** A formatted replacement is not reported, so the loop ends without looking again, here
      at a reference whose key the replacement has just extended. */
  lemma FormattedHidesReference()
    ensures Gentle(TwoValues()) && Regular("@$ab@$[%d](x)")
    ensures Substitute(TwoValues(), "@$ab@$[%d](x)", false) == Swept("@$ab7", false)
    ensures !Quiet(TwoValues(), "@$ab7")
  {
    hide ActAt, Splice, Gentle, FindMark, TwoValues, Regular;
    var n := TwoValues();
    TwoValuesGentle();
    var s, t := "@$ab@$[%d](x)", "@$ab7";
    TwoValuesRegular(s, t);
    FirstVisit(n, s);
    SecondVisit(n, s);
    KeyAb7(n, t);
    assert Sweep(n, t, 4, false) == Swept(t, false);
    assert Sweep(n, s, 1, false) == Swept(t, false);
    assert Sweep(n, s, 0, false) == Swept(t, false);
  }

  lemma TwoValuesGentle()
    ensures Gentle(TwoValues())
  {
    var n := TwoValues();
    forall f, v ensures '@' !in n.form(f, v) {
      DecimalIsPlain(v);
    }
  }

  lemma TwoValuesRegular(s: string, t: string)
    requires s == "@$ab@$[%d](x)" && t == "@$ab7"
    ensures Regular(s) && Regular(t)
  {
    assert Bracket(s, 9) == 9;
    assert Bracket(s, 8) == 9;
    assert Bracket(s, 7) == 9;
    assert s[7..9] == "%d";
    forall k: nat | k < |s| && MarkAt(s, k) ensures k == 0 || k == 4 {
    }
    assert RegularAt(s, 0) && RegularAt(s, 4);
    forall k: nat | k < |t| && MarkAt(t, k) ensures k == 0 {
    }
    assert RegularAt(t, 0);
  }

  lemma FirstVisit(n: Sources, s: string)
    requires n == TwoValues() && s == "@$ab@$[%d](x)"
    ensures FindMark(s, 0) == Some(0) && ActAt(n, s, 0) == Skip
  {
    assert KeyRun(s, 4) == 0;
    assert KeyRun(s, 3) == 1;
    assert KeyLength(s, 2) == 2;
    assert s[2..4] == "ab";
  }

  lemma SecondVisit(n: Sources, s: string)
    requires n == TwoValues() && s == "@$ab@$[%d](x)"
    ensures FindMark(s, 1) == Some(4) && ActAt(n, s, 4) == Put("7", 13, false)
    ensures Splice(s, 4, "7", 13) == "@$ab7"
  {
    assert Bracket(s, 9) == 9;
    assert Bracket(s, 8) == 9;
    assert Bracket(s, 7) == 9;
    assert s[7..9] == "%d";
    assert KeyRun(s, 12) == 0;
    assert KeyLength(s, 11) == 1;
    assert s[11..12] == "x";
    assert Parse(s, 4) == Ref(Some("%d"), "x", 13);
    assert Decimal(7) == "7";
    assert FindMark(s, 3) == Some(4);
    assert FindMark(s, 2) == Some(4);
  }

  lemma KeyAb7(n: Sources, t: string)
    requires n == TwoValues() && t == "@$ab7"
    ensures FindMark(t, 4) == None && MarkAt(t, 0) && ActAt(n, t, 0) != Skip
  {
    assert forall j: nat :: 4 <= j ==> !MarkAt(t, j);
    assert KeyRun(t, 5) == 0;
    assert KeyRun(t, 4) == 1;
    assert KeyRun(t, 3) == 2;
    assert KeyLength(t, 2) == 3;
    assert t[2..5] == "ab7";
  }
}
