/** The evaluator (ml/eval.c:128-359) and its agreement with substitution. */
module MlEval {
  import opened MlSyntax

  /** A function value keeps the environment it was made in. */
  datatype Value = Number(n: int) | Closure(param: string, body: Expr, env: Env)
  datatype Env = Empty | Bind(name: string, val: Value, next: Env)

  /** `exit(1)` is Error.  The source recurses without a bound; here Deep says that the recursion went
      deeper than asked for. */
  datatype Result<T> = Done(value: T) | Error | Deep

  function Lookup(name: string, env: Env): Result<Value> {
    match env
    case Empty => Error
    case Bind(x, v, next) => if x == name then Done(v) else Lookup(name, next)
  }

  /** lookup: the linked environment is searched from its newest entry on. */
  method LookupLoop(name: string, env: Env) returns (r: Result<Value>)
    ensures r == Lookup(name, env)
  {
    var e := env;
    while e.Bind?
      invariant Lookup(name, e) == Lookup(name, env)
      decreases e
    {
      if name == e.name {
        return Done(e.val);
      }
      e := e.next;
    }
    return Error;
  }

  /** C division of ints: towards zero. */
  function Quotient(a: int, b: int): int
    requires b != 0
  {
    if a >= 0 then (if b > 0 then a / b else -(a / -b))
    else if b > 0 then -(-a / b) else -a / -b
  }

  /** The binary operators.  `::` is not implemented and yields 0, as does division by zero. */
  function Arith(op: Operator, a: int, b: int): int {
    match op
    case Cons => 0
    case Greater => if a > b then 1 else 0
    case Less => if a < b then 1 else 0
    case Add => Wrap(a + b)
    case Sub => Wrap(a - b)
    case Mul => Wrap(a * b)
    case Div => if b != 0 then Wrap(Quotient(a, b)) else 0
    case Apply => 0
  }

  predicate IsInt32(n: int) {
    -0x8000_0000 <= n < 0x8000_0000
  }

  /** Division of naturals. */
  lemma NatQuotient(m: nat, n: nat)
    requires n > 0
    ensures 0 <= m / n <= m && 0 <= m - m / n * n < n
    ensures n > 1 ==> 2 * (m / n) <= m
  {
    var q := m / n;
    assert m == q * n + m % n;
    Grows(q, n);
  }

  lemma Grows(q: int, n: int)
    requires n > 0
    ensures q >= 0 ==> q * n >= q
    ensures q >= 0 && n > 1 ==> q * n >= 2 * q
    ensures q < 0 ==> q * n <= -n
  {
  }

  lemma Signs(q: int, n: int)
    ensures (-q) * n == -(q * n) && q * (-n) == -(q * n) && (-q) * (-n) == q * n
  {
  }

  /** Division of ints is towards zero: what remains is smaller than the divisor and has the sign of the
      dividend. */
  lemma QuotientTruncates(a: int, b: int)
    requires b != 0
    ensures var rem := a - Quotient(a, b) * b;
            && (if b > 0 then -b < rem < b else b < rem < -b)
            && (rem > 0 ==> a > 0) && (rem < 0 ==> a < 0)
    ensures IsInt32(a) && IsInt32(b) && !(a == -0x8000_0000 && b == -1) ==> IsInt32(Quotient(a, b))
  {
    var m, n := if a >= 0 then a else -a, if b > 0 then b else -b;
    NatQuotient(m, n);
    Signs(m / n, n);
  }

  /** What the operators mean on ints: subtraction undoes addition even where that wraps around, the
      comparisons are 0 or 1 and mirror each other, and division by zero gives 0, as `::` always does. */
  lemma ArithMeans(a: int, b: int)
    requires IsInt32(a) && IsInt32(b)
    ensures IsInt32(Arith(Add, a, b)) && Arith(Add, a, b) == Arith(Add, b, a)
    ensures Arith(Sub, Arith(Add, a, b), b) == a
    ensures IsInt32(a + b) ==> Arith(Add, a, b) == a + b
    ensures Arith(Less, a, b) == Arith(Greater, b, a)
    ensures Arith(Less, a, b) + Arith(Greater, a, b) == (if a == b then 0 else 1)
    ensures Arith(Less, a, b) == 1 <==> a < b
    ensures Arith(Div, a, 0) == 0 && Arith(Cons, a, b) == 0
  {
  }

  /** Sums, differences and products wrap around modulo 2^32. */
  lemma ArithWraps(a: int, b: int)
    ensures IsInt32(Arith(Add, a, b)) && (Arith(Add, a, b) - (a + b)) % 0x1_0000_0000 == 0
    ensures IsInt32(Arith(Sub, a, b)) && (Arith(Sub, a, b) - (a - b)) % 0x1_0000_0000 == 0
    ensures IsInt32(Arith(Mul, a, b)) && (Arith(Mul, a, b) - a * b) % 0x1_0000_0000 == 0
  {
    hide Wrap;
  }

  /** Products are exact unless they overflow; a quotient only does for the least int and -1, where it
      wraps around to the least int again. */
  lemma ProductsAndQuotients(a: int, b: int)
    requires IsInt32(a) && IsInt32(b)
    ensures IsInt32(Arith(Mul, a, b)) && Arith(Mul, a, b) == Arith(Mul, b, a)
    ensures IsInt32(a * b) ==> Arith(Mul, a, b) == a * b
    ensures b != 0 ==> (Arith(Div, a, b) == Quotient(a, b) <==> !(a == -0x8000_0000 && b == -1))
    ensures Arith(Div, -0x8000_0000, -1) == -0x8000_0000
  {
    hide Wrap;
    assert a * b == b * a;
    assert Quotient(-0x8000_0000, -1) == 0x8000_0000;
    assert Wrap(0x8000_0000) == -0x8000_0000;
    if b != 0 {
      hide Quotient;
      QuotientTruncates(a, b);
    }
  }

  /** eval, to a given depth of recursion. */
  function Eval(depth: nat, e: Expr, env: Env): Result<Value>
    decreases depth
  {
    if depth == 0 then Deep else
    match e
    case If(c, t, f) =>
      var cond := Eval(depth - 1, c, env);
      if !cond.Done? then cond
      else if !cond.value.Number? then Error
      else if cond.value.n != 0 then Eval(depth - 1, t, env)
      else Eval(depth - 1, f, env)
    case Name(x) =>
      Lookup(x, env)
    case Num(n) =>
      Done(Number(n))
    case Op(op, a, b) =>
      var l := Eval(depth - 1, a, env);
      if !l.Done? then l else
      var r := Eval(depth - 1, b, env);
      if !r.Done? then r
      else if op != Apply then
        if l.value.Number? && r.value.Number? then Done(Number(Arith(op, l.value.n, r.value.n))) else Error
      else if !l.value.Closure? then Error
      else Eval(depth - 1, l.value.body, Bind(l.value.param, r.value, l.value.env))
    case Fn(x, body) =>
      Done(Closure(x, body, env))
  }

  // ---------------------------------------------------------------- substitution semantics

  /** e with the names in s replaced by the expressions s gives for them, except where they are bound. */
  function Subst(e: Expr, s: map<string, Expr>): Expr {
    match e
    case If(c, t, f) => If(Subst(c, s), Subst(t, s), Subst(f, s))
    case Name(x) => if x in s then s[x] else e
    case Num(_) => e
    case Op(op, a, b) => Op(op, Subst(a, s), Subst(b, s))
    case Fn(x, body) => Fn(x, Subst(body, s - {x}))
  }

  /** Call by value without environments: the argument is put into the body.  Results are expressions:
      numerals and functions. */
  function Reduce(depth: nat, e: Expr): Result<Expr>
    decreases depth
  {
    if depth == 0 then Deep else
    match e
    case If(c, t, f) =>
      var cond := Reduce(depth - 1, c);
      if !cond.Done? then cond
      else if !cond.value.Num? then Error
      else if cond.value.num != 0 then Reduce(depth - 1, t)
      else Reduce(depth - 1, f)
    case Name(_) =>
      Error
    case Num(_) =>
      Done(e)
    case Op(op, a, b) =>
      var l := Reduce(depth - 1, a);
      if !l.Done? then l else
      var r := Reduce(depth - 1, b);
      if !r.Done? then r
      else if op != Apply then
        if l.value.Num? && r.value.Num? then Done(Num(Arith(op, l.value.num, r.value.num))) else Error
      else if !l.value.Fn? then Error
      else Reduce(depth - 1, Subst(l.value.body, map[l.value.param := r.value]))
    case Fn(_, _) =>
      Done(e)
  }

  // ---------------------------------------------------------------- the correspondence

  function Free(e: Expr): set<string> {
    match e
    case If(c, t, f) => Free(c) + Free(t) + Free(f)
    case Name(x) => {x}
    case Num(_) => {}
    case Op(_, a, b) => Free(a) + Free(b)
    case Fn(x, body) => Free(body) - {x}
  }

  /** The expression a value stands for: the environment of a closure is substituted into its body. */
  function Unfold(v: Value): Expr {
    match v
    case Number(n) => Num(n)
    case Closure(x, body, env) => Fn(x, Subst(body, UnfoldEnv(env) - {x}))
  }

  function UnfoldEnv(env: Env): map<string, Expr> {
    match env
    case Empty => map[]
    case Bind(x, v, next) => UnfoldEnv(next)[x := Unfold(v)]
  }

  /** Closures contain everything their bodies mention. */
  predicate Sound(v: Value) {
    match v
    case Number(_) => true
    case Closure(x, body, env) => SoundEnv(env) && Free(body) <= UnfoldEnv(env).Keys + {x}
  }

  predicate SoundEnv(env: Env) {
    match env
    case Empty => true
    case Bind(_, v, next) => Sound(v) && SoundEnv(next)
  }

  ghost predicate AllClosed(s: map<string, Expr>) {
    forall x :: x in s ==> Free(s[x]) == {}
  }

  lemma {:induction false} FreeOfSubst(e: Expr, s: map<string, Expr>)
    requires AllClosed(s)
    ensures Free(Subst(e, s)) == Free(e) - s.Keys
  {
    match e
    case If(c, t, f) =>
      FreeOfSubst(c, s);
      FreeOfSubst(t, s);
      FreeOfSubst(f, s);
    case Name(_) =>
    case Num(_) =>
    case Op(_, a, b) =>
      FreeOfSubst(a, s);
      FreeOfSubst(b, s);
    case Fn(x, body) =>
      FreeOfSubst(body, s - {x});
  }

  lemma {:induction false} SoundClosed(v: Value)
    requires Sound(v)
    ensures Free(Unfold(v)) == {}
    decreases v
  {
    match v
    case Number(_) =>
    case Closure(x, body, env) =>
      SoundEnvClosed(env);
      FreeOfSubst(body, UnfoldEnv(env) - {x});
  }

  lemma {:induction false} SoundEnvClosed(env: Env)
    requires SoundEnv(env)
    ensures AllClosed(UnfoldEnv(env))
    decreases env
  {
    match env
    case Empty =>
    case Bind(_, v, next) =>
      SoundClosed(v);
      SoundEnvClosed(next);
  }

  /** Substituting into an expression without the names concerned changes nothing. */
  lemma {:induction false} SubstNothing(e: Expr, s: map<string, Expr>)
    requires Free(e) !! s.Keys
    ensures Subst(e, s) == e
  {
    match e
    case If(c, t, f) =>
      SubstNothing(c, s);
      SubstNothing(t, s);
      SubstNothing(f, s);
    case Name(_) =>
    case Num(_) =>
    case Op(_, a, b) =>
      SubstNothing(a, s);
      SubstNothing(b, s);
    case Fn(x, body) =>
      SubstNothing(body, s - {x});
  }

  /** Substituting the environment first and the argument afterwards is substituting the environment
      with the argument bound in it: this is where lexical scope comes in. */
  lemma {:induction false} SubstLast(e: Expr, s: map<string, Expr>, x: string, v: Expr)
    requires AllClosed(s) && Free(v) == {}
    ensures Subst(Subst(e, s - {x}), map[x := v]) == Subst(e, s[x := v])
  {
    match e
    case If(c, t, f) =>
      SubstLast(c, s, x, v);
      SubstLast(t, s, x, v);
      SubstLast(f, s, x, v);
    case Name(y) =>
      if y != x && y in s {
        SubstNothing(s[y], map[x := v]);
      }
    case Num(_) =>
    case Op(_, a, b) =>
      SubstLast(a, s, x, v);
      SubstLast(b, s, x, v);
    case Fn(y, body) =>
      if y == x {
        assert s[x := v] - {y} == s - {x} == (s - {x}) - {y};
        assert map[x := v] - {y} == map[];
        SubstNothing(Subst(body, s - {x}), map[]);
      } else {
        assert s[x := v] - {y} == (s - {y})[x := v];
        assert (s - {x}) - {y} == (s - {y}) - {x};
        assert map[x := v] - {y} == map[x := v];
        SubstLast(body, s - {y}, x, v);
      }
  }

  /** The two results agree: both fail, both go too deep, or the value stands for the expression. */
  ghost predicate Agree(r: Result<Value>, s: Result<Expr>) {
    match r
    case Done(v) => s == Done(Unfold(v)) && Sound(v)
    case Error => s == Error
    case Deep => s == Deep
  }

  lemma {:induction false} LookupUnfolds(x: string, env: Env)
    requires SoundEnv(env) && x in UnfoldEnv(env)
    ensures Lookup(x, env).Done? && Sound(Lookup(x, env).value)
    ensures Unfold(Lookup(x, env).value) == UnfoldEnv(env)[x]
  {
    match env
    case Bind(y, _, next) =>
      if y != x {
        LookupUnfolds(x, next);
      }
  }

  /** Evaluation in an environment and reduction after substituting it agree on e. */
  ghost predicate AgreeOn(depth: nat, e: Expr, env: Env) {
    Agree(Eval(depth, e, env), Reduce(depth, Subst(e, UnfoldEnv(env))))
  }

  /** Entering the function f with arg agrees with substituting what arg stands for into what f does. */
  ghost predicate AgreeInside(depth: nat, f: Value, arg: Value)
    requires f.Closure?
  {
    Agree(Eval(depth, f.body, Bind(f.param, arg, f.env)),
          Reduce(depth, Subst(Unfold(f).body, map[Unfold(f).param := Unfold(arg)])))
  }

  lemma FreeParts(e: Expr)
    ensures e.If? ==> Free(e.cond) <= Free(e) && Free(e.thn) <= Free(e) && Free(e.els) <= Free(e)
    ensures e.Op? ==> Free(e.a) <= Free(e) && Free(e.b) <= Free(e)
  {
  }

  lemma AgreeSound(depth: nat, e: Expr, env: Env)
    requires AgreeOn(depth, e, env) && Eval(depth, e, env).Done?
    ensures Sound(Eval(depth, e, env).value)
  {
    hide Eval, Sound;
  }

  /** Expressions without further evaluation, and depth 0. */
  lemma LeafAgrees(depth: nat, e: Expr, env: Env)
    requires SoundEnv(env) && Free(e) <= UnfoldEnv(env).Keys
    requires depth == 0 || e.Name? || e.Num? || e.Fn?
    ensures AgreeOn(depth, e, env)
  {
    hide Arith, AllClosed;
    if depth != 0 {
      match e
      case Name(x) =>
        LookupUnfolds(x, env);
        UnfoldedReduces(depth, Lookup(x, env).value);
      case Num(_) =>
      case Fn(x, body) =>
        assert Free(body) <= UnfoldEnv(env).Keys + {x};
    }
  }

  lemma IfAgrees(depth: nat, c: Expr, t: Expr, f: Expr, env: Env)
    requires AgreeOn(depth, c, env) && AgreeOn(depth, t, env) && AgreeOn(depth, f, env)
    ensures AgreeOn(depth + 1, If(c, t, f), env)
  {
    hide Lookup, Arith, Sound, UnfoldEnv;
  }

  lemma OpAgrees(depth: nat, op: Operator, a: Expr, b: Expr, env: Env)
    requires AgreeOn(depth, a, env) && AgreeOn(depth, b, env)
    requires var l, r := Eval(depth, a, env), Eval(depth, b, env);
             op == Apply && l.Done? && r.Done? && l.value.Closure? ==> AgreeInside(depth, l.value, r.value)
    ensures AgreeOn(depth + 1, Op(op, a, b), env)
  {
    hide Lookup, Arith, UnfoldEnv;
  }

  /** Evaluating e in an environment and reducing e with the environment substituted into it agree. */
  lemma {:induction false} EvalAgrees(depth: nat, e: Expr, env: Env)
    requires SoundEnv(env) && Free(e) <= UnfoldEnv(env).Keys
    ensures AgreeOn(depth, e, env)
    decreases depth, 0
  {
    hide AgreeOn, AgreeInside, Eval, Sound, SoundEnv, Unfold, UnfoldEnv, Free;
    FreeParts(e);
    if depth == 0 {
      LeafAgrees(depth, e, env);
      return;
    }
    match e
    case If(c, t, f) =>
      EvalAgrees(depth - 1, c, env);
      EvalAgrees(depth - 1, t, env);
      EvalAgrees(depth - 1, f, env);
      IfAgrees(depth - 1, c, t, f, env);
    case Op(op, a, b) =>
      EvalAgrees(depth - 1, a, env);
      EvalAgrees(depth - 1, b, env);
      var l, r := Eval(depth - 1, a, env), Eval(depth - 1, b, env);
      if op == Apply && l.Done? && r.Done? && l.value.Closure? {
        AgreeSound(depth - 1, a, env);
        AgreeSound(depth - 1, b, env);
        ApplyAgrees(depth - 1, l.value, r.value);
      }
      OpAgrees(depth - 1, op, a, b, env);
    case _ =>
      LeafAgrees(depth, e, env);
  }

  /** Numerals and functions reduce to themselves. */
  lemma UnfoldedReduces(depth: nat, v: Value)
    requires depth > 0
    ensures Reduce(depth, Unfold(v)) == Done(Unfold(v))
  {
  }

  /** Entering a function: its body in the closure's environment with the argument bound, and its
      unfolded body with the argument substituted. */
  lemma {:induction false} ApplyAgrees(depth: nat, f: Value, arg: Value)
    requires f.Closure? && Sound(f) && Sound(arg)
    ensures AgreeInside(depth, f, arg)
    decreases depth, 1
  {
    SoundEnvClosed(f.env);
    SoundClosed(arg);
    SubstLast(f.body, UnfoldEnv(f.env), f.param, Unfold(arg));
    EvalAgrees(depth, f.body, Bind(f.param, arg, f.env));
  }

  /** The evaluator on a closed program gives what call by value with substitution gives: the same
      number, the corresponding function, or a failure of both. */
  lemma ClosedProgramsAgree(depth: nat, e: Expr)
    requires Free(e) == {}
    ensures Agree(Eval(depth, e, Empty), Reduce(depth, e))
  {
    SubstNothing(e, map[]);
    EvalAgrees(depth, e, Empty);
  }

  /** Results do not depend on the depth allowed, as long as it is enough. */
  lemma {:induction false} DeeperIsSame(depth: nat, more: nat, e: Expr, env: Env)
    requires depth <= more && Eval(depth, e, env) != Deep
    ensures Eval(more, e, env) == Eval(depth, e, env)
    decreases depth
  {
    match e
    case If(c, t, f) =>
      DeeperIsSame(depth - 1, more - 1, c, env);
      var cond := Eval(depth - 1, c, env);
      if cond.Done? && cond.value.Number? {
        DeeperIsSame(depth - 1, more - 1, if cond.value.n != 0 then t else f, env);
      }
    case Name(_) =>
    case Num(_) =>
    case Op(op, a, b) =>
      DeeperIsSame(depth - 1, more - 1, a, env);
      var l := Eval(depth - 1, a, env);
      if l.Done? {
        DeeperIsSame(depth - 1, more - 1, b, env);
        var r := Eval(depth - 1, b, env);
        if r.Done? && op == Apply && l.value.Closure? {
          DeeperIsSame(depth - 1, more - 1, l.value.body, Bind(l.value.param, r.value, l.value.env));
        }
      }
    case Fn(_, _) =>
  }
}
