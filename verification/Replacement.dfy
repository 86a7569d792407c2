/** What stands in the place of a reference once subresults_into is done with a string, and
      what an integer printed by sprintf reads back as. */
module Replacement {
  import opened Options
  import opened Substitution

  // ----- numerals -----

  /** The number that the digits of s, read from left to right, add to those already read. */
  function ReadDigits(s: string, read: nat): Option<nat> {
    if s == "" then Some(read)
    else if '0' <= s[0] <= '9' then ReadDigits(s[1..], 10 * read + (s[0] as nat - '0' as nat))
    else None
  }

  /** A decimal numeral, with a minus sign if negative. */
  function ReadInt(s: string): Option<int> {
    if s == "" || s == "-" then None
    else if s[0] == '-' then
      var n := ReadDigits(s[1..], 0);
      if n.Some? then Some(0 - n.value) else None
    else
      var n := ReadDigits(s, 0);
      if n.Some? then Some(n.value) else None
  }

  /** What is printed for v reads as v; it has a sign only if v is negative, and no leading zero. */
  lemma {:induction false} DecimalReads(v: int)
    ensures ReadInt(Decimal(v)) == Some(v)
    ensures Decimal(v) != "" && (Decimal(v)[0] == '-' <==> v < 0)
    ensures Decimal(v)[0] == '0' ==> v == 0 && Decimal(v) == "0"
    ensures v < 0 ==> |Decimal(v)| > 1 && Decimal(v)[1] != '0'
  {
    hide Digits;
    var n := if v < 0 then -v else v;
    DigitsRead(n, "");
    assert Digits(n) + "" == Digits(n);
    FirstDigit(n);
    if v < 0 { assert Decimal(v)[1..] == Digits(n); }
  }

  lemma {:induction false} DigitsRead(n: nat, s: string)
    ensures ReadDigits(Digits(n) + s, 0) == ReadDigits(s, n)
  {
    if n < 10 {
      LastDigit(n, s, 0);
    } else {
      DigitsRead(n / 10, Digits(n % 10) + s);
      assert Digits(n) + s == Digits(n / 10) + (Digits(n % 10) + s);
      LastDigit(n % 10, s, n / 10);
    }
  }

  lemma LastDigit(n: nat, s: string, read: nat)
    requires n < 10
    ensures ReadDigits(Digits(n) + s, read) == ReadDigits(s, 10 * read + n)
  {
    var t := Digits(n) + s;
    assert t[0] == ('0' as int + n) as char && t[1..] == s;
  }

  lemma {:induction false} FirstDigit(n: nat)
    ensures Digits(n) != "" && '0' <= Digits(n)[0] <= '9'
    ensures Digits(n)[0] == '0' ==> n == 0 && Digits(n) == "0"
  {
    if n >= 10 { FirstDigit(n / 10); }
  }

  // ----- one reference in a string -----

  const UPPER := "ABCDEFGHIJKLMNOPQRSTUVWXYZ"
  const LOWER := "abcdefghijklmnopqrstuvwxyz"
  const OTHER := "0123456789_."

  predicate InKeys(c: char) { c in UPPER || c in LOWER || c in OTHER }

  lemma KeyCharIs(c: char)
    ensures KeyChar(c) <==> InKeys(c)
  {
    hide UPPER, LOWER;
    UpperIs(c);
    LowerIs(c);
  }

  lemma UpperIs(c: char)
    ensures 'A' <= c <= 'Z' <==> c in UPPER
  {
    if 'A' <= c <= 'Z' { assert UPPER[c as int - 'A' as int] == c; }
  }

  lemma LowerIs(c: char)
    ensures 'a' <= c <= 'z' <==> c in LOWER
  {
    if 'a' <= c <= 'z' { assert LOWER[c as int - 'a' as int] == c; }
  }

  /** Key characters, behind at most one '+', '!' or '/'. */
  predicate IsKey(key: string) {
    key != "" && (key[0] in "+!/" || InKeys(key[0])) && forall i :: 0 < i < |key| ==> InKeys(key[i])
  }

  /** The key of a reference, as it is or behind a '(' and with what stands for the ')'. */
  function Name(key: string, closed: Option<string>): string {
    if closed.Some? then "(" + key + closed.value else key
  }

  /** A reference as it is written. */
  function Reference(format: Option<string>, key: string, closed: Option<string>): string {
    "@$" + (if format.Some? then "[" + format.value + "]" else "") + Name(key, closed)
  }

  /** Where a key ends: at the first character that is none of a key's, which is swallowed
      behind a '(', be it a ')' or not, or at the end of the string. */
  predicate Ends(closed: Option<string>, next: string) {
    match closed
    case None => next == "" || !InKeys(next[0])
    case Some(c) => if c == "" then next == "" else |c| == 1 && !InKeys(c[0]) && c[0] != '@'
  }

  predicate Fits(pre: string, format: Option<string>, key: string, closed: Option<string>, post: string) {
    && IsKey(key) && Inert(pre) && !HasMark(post)
    && (format.Some? ==> PlainText(format.value) && ']' !in format.value)
    && Ends(closed, post)
  }

  // ----- reading it back -----

  /** t stands at position i of s. */
  predicate Stands(s: string, i: nat, t: string) {
    i + |t| <= |s| && s[i..i + |t|] == t
  }

  lemma StandsAt(s: string, i: nat, t: string, k: nat)
    requires Stands(s, i, t) && k < |t|
    ensures i + k < |s| && s[i + k] == t[k]
  {
    assert s[i..i + |t|][k] == s[i + k];
  }

  lemma StandsParts(s: string, i: nat, t: string, u: string)
    requires Stands(s, i, t + u)
    ensures Stands(s, i, t) && Stands(s, i + |t|, u)
  {
    var both := s[i..i + |t + u|];
    assert both[..|t|] == t && both[|t|..] == u;
    assert s[i..i + |t|] == both[..|t|];
    assert s[i + |t|..i + |t| + |u|] == both[|t|..];
  }

  lemma {:induction false} RunOver(s: string, i: nat, m: nat)
    requires i + m <= |s| && forall k :: i <= k < i + m ==> InKeys(s[k])
    requires i + m < |s| ==> !InKeys(s[i + m])
    ensures KeyRun(s, i) == m
    decreases m
  {
    hide InKeys, KeyChar;
    if i < |s| { KeyCharIs(s[i]); }
    if m > 0 { RunOver(s, i + 1, m - 1); }
  }

  lemma LengthOver(s: string, i: nat, key: string)
    requires IsKey(key) && Stands(s, i, key)
    requires i + |key| < |s| ==> !InKeys(s[i + |key|])
    ensures KeyLength(s, i) == |key|
  {
    hide InKeys, KeyRun;
    forall k | 0 <= k < |key| ensures s[i + k] == key[k] { StandsAt(s, i, key, k); }
    assert forall k :: i + 1 <= k < i + |key| ==> s[k] == key[k - i];
    NoLead(key[0]);
    assert |key| > 0;
    if key[0] in "+!/" { RunOver(s, i + 1, |key| - 1); } else { RunOver(s, i, |key|); }
  }

  lemma NoLead(c: char)
    ensures InKeys(c) ==> c !in "+!/" && c != '(' && c != '[' && c != ')' && c != '@' && c != '$'
    ensures c in "+!/" <==> c == '+' || c == '!' || c == '/'
  {
    KeyCharIs(c);
  }

  lemma KeyReads(s: string, format: Option<string>, i: nat, key: string, closed: Option<string>)
    requires IsKey(key) && Stands(s, i, Name(key, closed)) && i + |Name(key, closed)| <= |s|
    requires Ends(closed, s[i + |Name(key, closed)|..])
    ensures ParseKey(s, format, i) == Ref(format, key, i + |Name(key, closed)|)
  {
    hide KeyLength, InKeys, Stands, IsKey;
    KeyStart(key);
    if closed.Some? {
      var c := closed.value;
      assert Name(key, closed) == "(" + (key + c);
      StandsParts(s, i, "(", key + c);
      StandsParts(s, i + 1, key, c);
      StandsAt(s, i, "(", 0);
      if c != "" { StandsAt(s, i + 1 + |key|, c, 0); }
      LengthOver(s, i + 1, key);
      StandsSlice(s, i + 1, key);
    } else {
      StandsAt(s, i, key, 0);
      LengthOver(s, i, key);
      StandsSlice(s, i, key);
    }
  }

  lemma {:induction false} BracketOver(s: string, i: nat, format: string)
    requires Stands(s, i, format + "]") && ']' !in format
    ensures Bracket(s, i) == i + |format|
    decreases |format|
  {
    StandsAt(s, i, format + "]", 0);
    if format != "" {
      assert format + "]" == [format[0]] + (format[1..] + "]");
      StandsParts(s, i, [format[0]], format[1..] + "]");
      BracketOver(s, i + 1, format[1..]);
    }
  }

  /** The reference is read as written. */
  lemma ReferenceReads(s: string, i: nat, format: Option<string>, key: string, closed: Option<string>)
    requires IsKey(key) && Stands(s, i, Reference(format, key, closed)) && (format.Some? ==> ']' !in format.value)
    requires var end := i + |Reference(format, key, closed)|; end <= |s| && Ends(closed, s[end..])
    ensures MarkAt(s, i) && Parse(s, i) == Ref(format, key, i + |Reference(format, key, closed)|)
    ensures i + 2 < |s| && (s[i + 2] == '[' <==> format.Some?) && s[i + 2] != '@'
    ensures format.Some? ==>
      Bracket(s, i + 3) == i + 3 + |format.value| < |s| && s[i + 3..i + 3 + |format.value|] == format.value
  {
    hide InKeys, ParseKey, IsKey, Name, Bracket, Stands;
    var name := Name(key, closed);
    NameFacts(key, closed);
    match format
    case Some(f) =>
      FormatParts(s, i, f, name, key, closed);
      KeyReads(s, format, i + 4 + |f|, key, closed);
    case None =>
      PlainParts(s, i, name, key, closed);
      KeyReads(s, format, i + 2, key, closed);
  }

  lemma NameFacts(key: string, closed: Option<string>)
    requires IsKey(key)
    ensures var name := Name(key, closed); name != "" && name[0] != '@' && name[0] != '['
  {
    hide InKeys;
    KeyStart(key);
  }

  lemma ReferenceShape(format: Option<string>, key: string, closed: Option<string>)
    ensures Reference(format, key, closed) ==
      if format.Some? then "@$[" + ((format.value + "]") + Name(key, closed)) else "@$" + Name(key, closed)
  {
    hide Name;
    var name := Name(key, closed);
    if format.Some? {
      var f := "[" + format.value + "]";
      assert ("@$" + f) + name == "@$" + (f + name);
      assert f == "[" + (format.value + "]");
    } else {
      assert "@$" + "" == "@$";
    }
  }

  lemma FormatParts(s: string, i: nat, f: string, name: string, key: string, closed: Option<string>)
    requires Stands(s, i, Reference(Some(f), key, closed)) && name == Name(key, closed) && ']' !in f
    ensures |Reference(Some(f), key, closed)| == 4 + |f| + |name|
    ensures i + 4 + |f| <= |s| && MarkAt(s, i) && s[i + 2] == '[' && Bracket(s, i + 3) == i + 3 + |f|
    ensures s[i + 3..i + 3 + |f|] == f && Stands(s, i + 4 + |f|, name)
  {
    hide Stands, Reference, Name, Bracket;
    ReferenceShape(Some(f), key, closed);
    StandsParts(s, i, "@$[", (f + "]") + name);
    StandsParts(s, i + 3, f + "]", name);
    StandsParts(s, i + 3, f, "]");
    StandsAt(s, i, "@$[", 0);
    StandsAt(s, i, "@$[", 1);
    StandsAt(s, i, "@$[", 2);
    StandsAt(s, i + 3 + |f|, "]", 0);
    BracketOver(s, i + 3, f);
    StandsSlice(s, i + 3, f);
  }

  lemma StandsSlice(s: string, i: nat, t: string)
    requires Stands(s, i, t)
    ensures i + |t| <= |s| && s[i..i + |t|] == t
  {
  }

  lemma PlainParts(s: string, i: nat, name: string, key: string, closed: Option<string>)
    requires Stands(s, i, Reference(None, key, closed)) && name == Name(key, closed) && name != ""
    ensures |Reference(None, key, closed)| == 2 + |name|
    ensures i + 2 < |s| && MarkAt(s, i) && s[i + 2] == name[0] && Stands(s, i + 2, name)
  {
    hide Stands, Reference, Name;
    ReferenceShape(None, key, closed);
    StandsParts(s, i, "@$", name);
    StandsAt(s, i, "@$", 0);
    StandsAt(s, i, "@$", 1);
    StandsAt(s, i + 2, name, 0);
  }

  lemma KeyStart(key: string)
    requires IsKey(key)
    ensures key != "" && key[0] != '@' && key[0] != '[' && key[0] != '('
  {
    hide InKeys;
    NoLead(key[0]);
  }

  // ----- the whole replacement -----

  /** A string with one reference has one mark, the one that begins it. */
  lemma OneMark(pre: string, format: Option<string>, key: string, closed: Option<string>, post: string, k: nat)
    requires Fits(pre, format, key, closed, post)
    ensures MarkAt(pre + Reference(format, key, closed) + post, k) <==> k == |pre|
  {
    hide Reference, PrintsDigits, InKeys, IsKey;
    var ref := Reference(format, key, closed);
    var s := pre + ref + post;
    OneAt(format, key, closed);
    if k < |pre| { assert !MarkAt(pre, k); }
    if k >= |pre| + |ref| { assert !MarkAt(post, k - |pre| - |ref|); }
    if |pre| < k < |pre| + |ref| { assert s[k] == ref[1..][k - |pre| - 1]; }
    if k == |pre| { assert s[k] == ref[0] && s[k + 1] == ref[1]; }
  }

  lemma OneAt(format: Option<string>, key: string, closed: Option<string>)
    requires IsKey(key) && (format.Some? ==> PlainText(format.value)) && (closed.Some? ==> '@' !in closed.value)
    ensures var ref := Reference(format, key, closed); |ref| > 2 && ref[0] == '@' && ref[1] == '$' && '@' !in ref[1..]
  {
    hide IsKey, PrintsDigits;
    KeyPlain(key);
    KeyStart(key);
    ReferenceShape(format, key, closed);
    var ref := Reference(format, key, closed);
    hide Reference;
    if format.Some? {
      assert ref[1..] == "$[" + ((format.value + "]") + Name(key, closed));
    } else {
      assert ref[1..] == "$" + Name(key, closed);
    }
  }

  lemma KeyPlain(key: string)
    requires IsKey(key)
    ensures '@' !in key
  {
    hide InKeys;
    NoLead(key[0]);
    forall i | 0 < i < |key| ensures key[i] != '@' { NoLead(key[i]); }
  }

  /** Such a string is regular, and its mark is read as the reference that was written. */
  lemma OneReference(pre: string, format: Option<string>, key: string, closed: Option<string>, post: string)
    requires Fits(pre, format, key, closed, post)
    ensures var ref := Reference(format, key, closed); var s := pre + ref + post;
      && Regular(s) && MarkAt(s, |pre|) && Parse(s, |pre|) == Ref(format, key, |pre| + |ref|)
      && |ref| > 2 && (pre != "" ==> s[|pre| - 1] != '@')
  {
    hide Reference, InKeys, IsKey, Parse, Regular, MarkAt, PlainText, HasMark, Stands;
    var ref := Reference(format, key, closed);
    var s := pre + ref + post;
    OneAt(format, key, closed);
    InTheMiddle(pre, ref, post);
    forall k: nat | MarkAt(s, k) ensures k == |pre| {
      OneMark(pre, format, key, closed, post, k);
    }
    OneStands(s, |pre|, format, key, closed);
  }

  lemma OneStands(s: string, i: nat, format: Option<string>, key: string, closed: Option<string>)
    requires IsKey(key) && Stands(s, i, Reference(format, key, closed))
    requires format.Some? ==> PlainText(format.value) && ']' !in format.value
    requires var end := i + |Reference(format, key, closed)|; end <= |s| && Ends(closed, s[end..])
    requires (i > 0 && i <= |s| ==> s[i - 1] != '@') && forall k: nat :: MarkAt(s, k) ==> k == i
    ensures Regular(s) && MarkAt(s, i) && Parse(s, i) == Ref(format, key, i + |Reference(format, key, closed)|)
  {
    hide Reference, InKeys, IsKey, Parse, Bracket, MarkAt, PlainText, Regular, Stands;
    ReferenceReads(s, i, format, key, closed);
    OneIsRegular(s, i, format);
  }

  lemma InTheMiddle(pre: string, ref: string, post: string)
    ensures var s := pre + ref + post;
      && Stands(s, |pre|, ref) && (pre != "" ==> s[|pre| - 1] == pre[|pre| - 1])
      && s[|pre| + |ref|..] == post
  {
  }

  lemma OneIsRegular(s: string, i: nat, format: Option<string>)
    requires MarkAt(s, i) && (i > 0 ==> s[i - 1] != '@') && (forall k: nat :: MarkAt(s, k) ==> k == i)
    requires i + 2 < |s| && (s[i + 2] == '[' <==> format.Some?) && s[i + 2] != '@'
    requires format.Some? ==> PlainText(format.value) && Bracket(s, i + 3) == i + 3 + |format.value| < |s|
    requires format.Some? ==> s[i + 3..i + 3 + |format.value|] == format.value
    ensures Regular(s)
  {
    hide PlainText, Bracket, MarkAt;
    NoMarkAhead(s, i);
  }

  lemma NoMarkAhead(s: string, k: nat)
    ensures k + 2 < |s| && s[k + 2] != '@' ==> !MarkAt(s, k + 2)
  {
  }

  /** What comes to stand in the place of a reference, and whether that is reported: with a
      format and a value the value as the format prints it, unreported; else the text, or else
      the value in decimal.  A text is no text while it has references of its own. */
  function Replaced(n: Sources, format: Option<string>, f: Found): Option<(string, bool)> {
    match f
    case Integer(v) => Some(if format.Some? then (n.form(format.value, v), false) else (Decimal(v), true))
    case Text(t) => if HasMark(t) then None else Some((t, true))
    case Submap(_, Some(v)) =>
      if format.Some? then Some((n.form(format.value, v), false))
      else if f.str.Some? then Some((f.str.value, true))
      else Some((Decimal(v), true))
    case Submap(Some(t), None) => Some((t, true))
    case _ => None
  }

  lemma ActReplaces(n: Sources, s: string, i: nat, format: Option<string>, key: string, end: nat)
    requires MarkAt(s, i) && key != "" && i + 2 <= end <= |s| && Parse(s, i) == Ref(format, key, end)
    ensures ActAt(n, s, i) == match Replaced(n, format, n.find(key))
      case Some(r) => Put(r.0, end, r.1)
      case None => Skip
  {
    hide Parse, MarkAt, HasMark, Decimal;
  }

  lemma SpliceIs(pre: string, ref: string, post: string, text: string)
    ensures Splice(pre + ref + post, |pre|, text, |pre| + |ref|) == pre + text + post
  {
    var s := pre + ref + post;
    assert s[..|pre|] == pre && s[|pre| + |ref|..] == post;
  }

  lemma SpliceLeavesNone(s: string, i: nat, text: string, end: nat)
    requires MarkAt(s, i) && i + 2 <= end <= |s| && Inert(text) && (i > 0 ==> s[i - 1] != '@')
    requires forall k: nat :: MarkAt(s, k) ==> k == i
    ensures forall k: nat :: !MarkAt(Splice(s, i, text, end), k)
  {
    hide Inert, Splice, MarkAt;
    forall k: nat ensures !MarkAt(Splice(s, i, text, end), k) {
      if MarkAt(Splice(s, i, text, end), k) { SplicedMark(s, i, text, end, k); }
    }
  }

  /** subresults_into on a string with one reference, whatever surrounds it. */
  lemma ReplacesReference(n: Sources, pre: string, format: Option<string>, key: string, closed: Option<string>,
                          post: string)
    requires Gentle(n) && Fits(pre, format, key, closed, post)
    ensures var s, r := pre + Reference(format, key, closed) + post, Replaced(n, format, n.find(key));
      && Regular(s)
      && (r.None? ==> Substitute(n, s, false) == Swept(s, false))
      && (r.Some? ==> Substitute(n, s, false) == Swept(pre + r.value.0 + post, r.value.1))
  {
    hide Reference, Gentle, PlainText, IsKey, Parse, MarkAt, Regular, Splice, Replaced, HasMark, InKeys, Sweep;
    var ref := Reference(format, key, closed);
    var s, i, r := pre + ref + post, |pre|, Replaced(n, format, n.find(key));
    OneReference(pre, format, key, closed, post);
    KeyStart(key);
    forall k: nat | MarkAt(s, k) ensures k == i { OneMark(pre, format, key, closed, post, k); }
    ActReplaces(n, s, i, format, key, i + |ref|);
    SpliceIs(pre, ref, post, if r.Some? then r.value.0 else "");
    OneSweep(n, s, i);
  }

  /** Both loops on a string with one mark. */
  lemma OneSweep(n: Sources, s: string, i: nat)
    requires Gentle(n) && Regular(s) && MarkAt(s, i) && (forall k: nat :: MarkAt(s, k) ==> k == i)
    ensures var a := ActAt(n, s, i);
      && (a.Skip? ==> Substitute(n, s, false) == Swept(s, false))
      && (a.Fail? ==> Substitute(n, s, false) == Broken)
      && (a.Put? ==> Substitute(n, s, false) == Swept(Splice(s, i, a.text, a.end), a.news))
  {
    hide Gentle, Regular, ActAt, Splice, MarkAt, Inert, Marks;
    var a := ActAt(n, s, i);
    MarkFound(s, i);
    SweepJump(n, s, 0, false);
    MarkRoom(s, i);
    if a.Skip? {
      assert FindMark(s, i + 1).None?;
    } else if a.Put? {
      PlainIsInert("");
      NoAtBefore(s, i, "");
      PutRegular(n, s, i);
      SpliceLeavesNone(s, i, a.text, a.end);
      assert Sweep(n, s, i, false) == Sweep(n, Splice(s, i, a.text, a.end), i, a.news);
      SweptClean(n, Splice(s, i, a.text, a.end), i, a.news);
      SweptClean(n, Splice(s, i, a.text, a.end), 0, false);
    }
  }

  lemma MarkRoom(s: string, i: nat)
    requires MarkAt(s, i)
    ensures i + 2 <= |s|
  {
  }

  lemma SweptClean(n: Sources, s: string, i: nat, changed: bool)
    requires Gentle(n) && Regular(s) && i <= |s| && forall k: nat :: !MarkAt(s, k)
    ensures Sweep(n, s, i, changed) == Swept(s, changed)
  {
    hide Gentle, Regular, MarkAt, ActAt, Splice;
  }

  /** A '[' that no ']' follows stops the program. */
  lemma UnclosedStops(n: Sources, pre: string, rest: string)
    requires Gentle(n) && Inert(pre) && '@' !in rest && ']' !in rest
    ensures var s := pre + ("@$[" + rest);
      Regular(s) && Substitute(n, s, false) == Broken
  {
    hide Gentle, Regular, Inert;
    var s, i := pre + ("@$[" + rest), |pre|;
    LoneMark(pre, "$[" + rest);
    assert "@" + ("$[" + rest) == "@$[" + rest;
    assert s[i + 2] == '[' && s[i + 3..] == rest;
    NoBracket(s, i + 3);
    assert PlainFormat(s, i) by { assert s[i + 3..|s|] == rest; }
    RegularOne(s, i);
    OneSweep(n, s, i);
  }

  /** A mark without a key, bare or before an empty pair of parentheses, is left alone. */
  lemma NoKeyIsKept(n: Sources, pre: string, post: string)
    requires Gentle(n) && Inert(pre) && '@' !in post
    requires post == "" || post[..1] == "(" || (!InKeys(post[0]) && post[0] !in "+!/[")
    requires post != "" && post[0] == '(' ==> |post| == 1 || (!InKeys(post[1]) && post[1] !in "+!/")
    ensures var s := pre + ("@$" + post);
      Regular(s) && Substitute(n, s, false) == Swept(s, false)
  {
    hide Gentle, Regular, Inert, InKeys;
    var s, i := pre + ("@$" + post), |pre|;
    LoneMark(pre, "$" + post);
    assert "@" + ("$" + post) == "@$" + post;
    assert s[i + 2..] == post;
    if post != "" { assert s[i + 2] == post[0]; KeyCharIs(post[0]); }
    if |post| > 1 { assert s[i + 3] == post[1]; KeyCharIs(post[1]); }
    RegularOne(s, i);
    assert Parse(s, i).key == "";
    OneSweep(n, s, i);
  }

  /** An '@' alone begins the only mark. */
  lemma LoneMark(pre: string, rest: string)
    requires Inert(pre) && '@' !in rest && rest != "" && rest[0] == '$'
    ensures var s := pre + ("@" + rest);
      && (forall k: nat :: MarkAt(s, k) <==> k == |pre|) && (pre != "" ==> s[|pre| - 1] != '@')
      && (|pre| + 2 < |s| ==> s[|pre| + 2] != '@')
  {
    var s := pre + ("@" + rest);
    forall k: nat ensures MarkAt(s, k) <==> k == |pre| {
      if k < |pre| { assert !MarkAt(pre, k); }
      if |pre| < k < |s| { assert s[k] == rest[k - |pre| - 1]; }
    }
  }

  lemma RegularOne(s: string, i: nat)
    requires MarkAt(s, i) && (forall k: nat :: MarkAt(s, k) ==> k == i) && (i > 0 ==> s[i - 1] != '@')
    requires PlainFormat(s, i)
    ensures Regular(s)
  {
    hide MarkAt, PlainFormat;
    assert !MarkAt(s, i + 2);
  }

  lemma {:induction false} NoBracket(s: string, i: nat)
    requires i <= |s| && ']' !in s[i..]
    ensures Bracket(s, i) == |s|
    decreases |s| - i
  {
    if i < |s| {
      assert s[i..][0] == s[i] && s[i..][1..] == s[i + 1..];
      NoBracket(s, i + 1);
    }
  }
}
