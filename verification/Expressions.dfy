/** The expression trees of ast.cpp: isdefined, eval, define and copy. */
module Expressions {
  import opened Options
  import opened Bits


  /** m_def and m_v of an identifier are None until its name has been found. */
  datatype Ast =
    | Branch(op: char, left: Ast, right: Ast)
    | Single(op: char, val: Ast)
    | Tri(cond: Ast, left: Ast, right: Ast)
    | Number(n: int)
    | Ident(id: string, found: Option<int>)

  // ----- the source's 64-bit long and 32-bit int -----

  function Long(x: int): int {
    var u := x % TWO64;
    if u < TWO63 then u else u - TWO64
  }

  function Int32(x: int): int {
    var u := x % TWO32;
    if u < TWO31 then u else u - TWO32
  }

  function Unsigned(x: int): nat { x % TWO64 }

  /** Division truncates toward zero. */
  function Quotient(a: int, b: int): int
    requires b != 0
  {
    if a >= 0 then (if b > 0 then a / b else -(a / -b))
    else (if b > 0 then -(-a / b) else -a / -b)
  }

  function Truth(b: bool): int { if b then 1 else 0 }

  /** One binary operation; None where C++ leaves the result undefined or traps. */
  function Apply(op: char, l: int, r: int): Option<int> {
    match op
    case '+' => Some(Long(l + r))
    case '-' => Some(Long(l - r))
    case '*' => Some(Long(l * r))
    case '/' => if r == 0 || (l == -TWO63 && r == -1) then None else Some(Quotient(l, r))
    case '%' => if r == 0 || (l == -TWO63 && r == -1) then None else Some(l - r * Quotient(l, r))
    case 'u' => if 0 <= r < 64 then Some(Long(l * Pow2(r))) else None
    case 'd' => if 0 <= r < 64 then Some(l / Pow2(r)) else None
    case '|' => Some(Long(Or(Unsigned(l), Unsigned(r))))
    case '&' => Some(Long(And(Unsigned(l), Unsigned(r))))
    case '^' => Some(Long(Unsigned(l) + Unsigned(r) - 2 * And(Unsigned(l), Unsigned(r))))
    case 'o' => Some(Truth(l != 0 || r != 0))
    case 'a' => Some(Truth(l != 0 && r != 0))
    case 'e' => Some(Truth(l == r))
    case 'N' => Some(Truth(l != r))
    case 'L' => Some(Truth(l <= r))
    case 'G' => Some(Truth(l >= r))
    case '<' => Some(Truth(l < r))
    case '>' => Some(Truth(l > r))
    case _ => Some(l)
  }

  function Unary(op: char, v: int): int {
    if op == '~' then -v - 1 else Truth(v == 0)
  }

  // ----- the methods of the classes -----

  predicate IsDefined(a: Ast) {
    match a
    case Branch(_, l, r) => IsDefined(l) && IsDefined(r)
    case Single(_, v) => IsDefined(v)
    case Tri(c, l, r) => IsDefined(c) && IsDefined(l) && IsDefined(r)
    case Number(_) => true
    case Ident(_, found) => found.Some?
  }

  /** eval(): an identifier not yet found reads as 0. */
  function Eval(a: Ast): Option<int> {
    match a
    case Branch(op, l, r) =>
      var x, y := Eval(l), Eval(r);
      if x.Some? && y.Some? then Apply(op, x.value, y.value) else None
    case Single(op, v) =>
      var x := Eval(v);
      if x.Some? then Some(Unary(op, x.value)) else None
    case Tri(c, l, r) =>
      var x := Eval(c);
      if x.None? then None else if x.value != 0 then Eval(l) else Eval(r)
    case Number(n) => Some(n)
    case Ident(_, found) => Some(if found.Some? then found.value else 0)
  }

  /** What the names in scope currently stand for. */
  type Env = string -> Option<int>

  /** define(): identifiers already found keep their value. */
  function Define(a: Ast, env: Env): Ast {
    match a
    case Branch(op, l, r) => Branch(op, Define(l, env), Define(r, env))
    case Single(op, v) => Single(op, Define(v, env))
    case Tri(c, l, r) => Tri(Define(c, env), Define(l, env), Define(r, env))
    case Number(_) => a
    case Ident(id, found) => if found.Some? then a else Ident(id, env(id))
  }

  /** The flag define() returns. */
  predicate DefineChanges(a: Ast, env: Env) {
    match a
    case Branch(_, l, r) => DefineChanges(l, env) || DefineChanges(r, env)
    case Single(_, v) => DefineChanges(v, env)
    case Tri(c, l, r) => DefineChanges(c, env) || DefineChanges(l, env) || DefineChanges(r, env)
    case Number(_) => false
    case Ident(id, found) => found.None? && env(id).Some?
  }

  /** copy(): a fresh identifier has not been found. */
  function Copy(a: Ast): Ast {
    match a
    case Branch(op, l, r) => Branch(op, Copy(l), Copy(r))
    case Single(op, v) => Single(op, Copy(v))
    case Tri(c, l, r) => Tri(Copy(c), Copy(l), Copy(r))
    case Number(_) => a
    case Ident(id, _) => Ident(id, None)
  }

  // ----- the meaning of an expression -----

  /** Recursive evaluation: every identifier of the expression must have a value, found or
      not; whether it has been found before plays no part. */
  function Names(a: Ast): set<string> {
    match a
    case Branch(_, l, r) => Names(l) + Names(r)
    case Single(_, v) => Names(v)
    case Tri(c, l, r) => Names(c) + Names(l) + Names(r)
    case Number(_) => {}
    case Ident(id, _) => {id}
  }

  function EvalIn(a: Ast, env: Env): Option<int> {
    match a
    case Branch(op, l, r) =>
      var x, y := EvalIn(l, env), EvalIn(r, env);
      if x.Some? && y.Some? then Apply(op, x.value, y.value) else None
    case Single(op, v) =>
      var x := EvalIn(v, env);
      if x.Some? then Some(Unary(op, x.value)) else None
    case Tri(c, l, r) =>
      var x := EvalIn(c, env);
      if x.None? then None else if x.value != 0 then EvalIn(l, env) else EvalIn(r, env)
    case Number(n) => Some(n)
    case Ident(id, _) => env(id)
  }

  ghost predicate Covers(env: Env, names: set<string>) {
    forall id :: id in names ==> env(id).Some?
  }

  /** Every identifier already found holds the value env gives it. */
  ghost predicate Agrees(a: Ast, env: Env) {
    match a
    case Branch(_, l, r) => Agrees(l, env) && Agrees(r, env)
    case Single(_, v) => Agrees(v, env)
    case Tri(c, l, r) => Agrees(c, env) && Agrees(l, env) && Agrees(r, env)
    case Number(_) => true
    case Ident(id, found) => found.Some? ==> env(id) == found
  }

  /** env' knows everything env knows, and agrees with it. */
  ghost predicate Extends(env: Env, env': Env) {
    forall id :: env(id).Some? ==> env'(id) == env(id)
  }

  lemma {:induction false} DefineAgrees(a: Ast, env: Env, full: Env)
    requires Agrees(a, full) && Extends(env, full)
    ensures Agrees(Define(a, env), full) && Copy(Define(a, env)) == Copy(a)
    ensures IsDefined(Define(a, env)) ==> Covers(full, Names(a))
    ensures Covers(env, Names(a)) ==> IsDefined(Define(a, env))
    ensures IsDefined(Define(a, env)) ==> Eval(Define(a, env)) == EvalIn(a, full)
  {
    match a
    case Branch(op, l, r) =>
      DefineAgrees(l, env, full);
      DefineAgrees(r, env, full);
    case Single(op, v) =>
      DefineAgrees(v, env, full);
    case Tri(c, l, r) =>
      DefineAgrees(c, env, full);
      DefineAgrees(l, env, full);
      DefineAgrees(r, env, full);
    case Number(_) =>
    case Ident(id, found) =>
  }

  lemma {:induction false} CopyForgets(a: Ast, env: Env)
    ensures Agrees(Copy(a), env) && Names(Copy(a)) == Names(a) && EvalIn(Copy(a), env) == EvalIn(a, env)
    ensures Copy(Copy(a)) == Copy(a)
  {
    match a
    case Branch(op, l, r) => CopyForgets(l, env); CopyForgets(r, env);
    case Single(op, v) => CopyForgets(v, env);
    case Tri(c, l, r) => CopyForgets(c, env); CopyForgets(l, env); CopyForgets(r, env);
    case Number(_) =>
    case Ident(id, found) =>
  }

  /** Late binding: however much of an inherited expression was resolved where it came from,
      its copy, defined in the heir's scope, is defined exactly when the heir's scope knows
      all its names, and then has the value the expression has in that scope. */
  lemma {:induction false} LateBinding(a: Ast, origin: Env, heir: Env)
    ensures var c := Define(Copy(Define(a, origin)), heir);
      && (IsDefined(c) <==> Covers(heir, Names(a)))
      && (IsDefined(c) ==> Eval(c) == EvalIn(a, heir))
  {
    DefineKeepsText(a, origin);
    CopyForgets(a, heir);
    DefineAgrees(Copy(a), heir, heir);
  }

  lemma {:induction false} DefineKeepsText(a: Ast, env: Env)
    ensures Copy(Define(a, env)) == Copy(a)
  {
    match a
    case Branch(op, l, r) => DefineKeepsText(l, env); DefineKeepsText(r, env);
    case Single(op, v) => DefineKeepsText(v, env);
    case Tri(c, l, r) => DefineKeepsText(c, env); DefineKeepsText(l, env); DefineKeepsText(r, env);
    case Number(_) =>
    case Ident(id, found) =>
  }

  /** define() reports a change exactly when it changes the tree. */
  lemma {:induction false} ChangeFlagIsExact(a: Ast, env: Env)
    ensures DefineChanges(a, env) <==> Define(a, env) != a
  {
    match a
    case Branch(op, l, r) => ChangeFlagIsExact(l, env); ChangeFlagIsExact(r, env);
    case Single(op, v) => ChangeFlagIsExact(v, env);
    case Tri(c, l, r) => ChangeFlagIsExact(c, env); ChangeFlagIsExact(l, env); ChangeFlagIsExact(r, env);
    case Number(_) =>
    case Ident(id, found) =>
  }
}
