/** The two evaluators agree: evaluating an expression with closures gives,
    read back as an expression, exactly what the substitution evaluator
    gives, failures and running out of fuel included. */
module Equivalence {
  import opened Wrappers
  import opened Syntax
  import Ast
  import opened AstClosure
  import Program

  /** Replaces, all at once, every free `Var(y)` with `y` in `s` by `s[y]`. */
  function SubstAll(e: Expr, s: map<string, Expr>): Expr {
    match e
    case Int(_) => e
    case Var(y) => if y in s then s[y] else e
    case Sub(e1, e2) => Sub(SubstAll(e1, s), SubstAll(e2, s))
    case If(e1, e2, e3, e4) => If(SubstAll(e1, s), SubstAll(e2, s), SubstAll(e3, s), SubstAll(e4, s))
    case App(e1, e2) => App(SubstAll(e1, s), SubstAll(e2, s))
    case Fun(y, body) => Fun(y, SubstAll(body, s - {y}))
  }

  /** Reads a closure value back as the function literal it stands for: its
      body with its environment substituted in. */
  function ToExpr(v: Value): Expr
    decreases v
  {
    match v
    case VInt(i) => Int(i)
    case VClosure(x, body, env) =>
      var s := map y | y in env :: ToExpr(env[y]);
      Fun(x, SubstAll(body, s - {x}))
  }

  /** An environment read back as a substitution. */
  function EnvToSubst(env: Env): map<string, Expr> {
    map y | y in env :: ToExpr(env[y])
  }

  /** A closure-evaluator outcome read back as a substitution-evaluator one. */
  function ToResult(r: Result<Value>): Result<Expr> {
    match r
    case Ok(v) => Ok(ToExpr(v))
    case Err => Err
    case OutOfFuel => OutOfFuel
  }

  predicate ClosedRange(s: map<string, Expr>) {
    forall y | y in s :: Closed(s[y])
  }

  /** Substituting closed expressions removes exactly the substituted names
      from the free variables. */
  lemma {:induction false} SubstAllFreeVars(e: Expr, s: map<string, Expr>)
    requires ClosedRange(s)
    ensures FreeVars(SubstAll(e, s)) == FreeVars(e) - s.Keys
  {
    match e
    case Int(_) =>
    case Var(_) =>
    case Sub(e1, e2) =>
      SubstAllFreeVars(e1, s);
      SubstAllFreeVars(e2, s);
    case If(e1, e2, e3, e4) =>
      SubstAllFreeVars(e1, s);
      SubstAllFreeVars(e2, s);
      SubstAllFreeVars(e3, s);
      SubstAllFreeVars(e4, s);
    case App(e1, e2) =>
      SubstAllFreeVars(e1, s);
      SubstAllFreeVars(e2, s);
    case Fun(y, body) =>
      SubstAllFreeVars(body, s - {y});
  }

  /** The empty substitution changes nothing. */
  lemma {:induction false} SubstAllEmpty(e: Expr)
    ensures SubstAll(e, map[]) == e
  {
    match e
    case Int(_) =>
    case Var(_) =>
    case Sub(e1, e2) =>
      SubstAllEmpty(e1);
      SubstAllEmpty(e2);
    case If(e1, e2, e3, e4) =>
      SubstAllEmpty(e1);
      SubstAllEmpty(e2);
      SubstAllEmpty(e3);
      SubstAllEmpty(e4);
    case App(e1, e2) =>
      SubstAllEmpty(e1);
      SubstAllEmpty(e2);
    case Fun(y, body) =>
      var none: map<string, Expr> := map[];
      assert none - {y} == none;
      SubstAllEmpty(body);
  }

  /** A well-scoped value reads back as a closed integer or function literal. */
  lemma {:induction false} ToExprClosed(v: Value)
    requires WellScoped(v)
    ensures Closed(ToExpr(v))
    ensures ToExpr(v).Int? || ToExpr(v).Fun?
    decreases v
  {
    match v
    case VInt(_) =>
    case VClosure(x, body, env) =>
      forall y | y in env
        ensures Closed(ToExpr(env[y]))
      {
        ToExprClosed(env[y]);
      }
      var s := map y | y in env :: ToExpr(env[y]);
      SubstAllFreeVars(body, s - {x});
  }

  /** A well-scoped environment reads back as a substitution of closed terms. */
  lemma EnvToSubstClosed(env: Env)
    requires WellScopedEnv(env)
    ensures ClosedRange(EnvToSubst(env))
  {
    forall y | y in env
      ensures Closed(ToExpr(env[y]))
    {
      ToExprClosed(env[y]);
    }
  }

  /** Substituting one closed term after substituting closed terms for the
      other names is substituting them all at once. */
  lemma {:induction false} SubstAfterSubstAll(b: Expr, s: map<string, Expr>, x: string, w: Expr)
    requires ClosedRange(s) && Closed(w)
    ensures Ast.Subst(SubstAll(b, s - {x}), x, w) == Ok(SubstAll(b, s[x := w]))
  {
    match b
    case Int(_) =>
    case Var(y) =>
      if y != x && y in s {
        Ast.SubstNotFree(s[y], x, w);
      }
    case Sub(e1, e2) =>
      SubstAfterSubstAll(e1, s, x, w);
      SubstAfterSubstAll(e2, s, x, w);
    case If(e1, e2, e3, e4) =>
      SubstAfterSubstAll(e1, s, x, w);
      SubstAfterSubstAll(e2, s, x, w);
      SubstAfterSubstAll(e3, s, x, w);
      SubstAfterSubstAll(e4, s, x, w);
    case App(e1, e2) =>
      SubstAfterSubstAll(e1, s, x, w);
      SubstAfterSubstAll(e2, s, x, w);
    case Fun(y, body) =>
      if y == x {
        assert (s - {x}) - {x} == s[x := w] - {x};
      } else {
        assert (s - {x}) - {y} == (s - {y}) - {x};
        assert (s - {y})[x := w] == s[x := w] - {y};
        SubstAfterSubstAll(body, s - {y}, x, w);
      }
  }

  /** Binding a name in an environment binds it to the read-back value in
      the substitution. */
  lemma EnvToSubstUpdate(env: Env, x: string, v: Value)
    ensures EnvToSubst(env[x := v]) == EnvToSubst(env)[x := ToExpr(v)]
  {
  }

  /** Applying a read-back closure to a read-back value substitutes, in its
      body, the read-back of the environment the closure evaluator extends. */
  lemma ApplyToExpr(c: Value, v: Value)
    requires c.VClosure? && WellScoped(c) && WellScoped(v)
    ensures ToExpr(c) == Fun(c.param, SubstAll(c.body, EnvToSubst(c.env) - {c.param}))
    ensures Ast.Subst(ToExpr(c).body, c.param, ToExpr(v))
         == Ok(SubstAll(c.body, EnvToSubst(c.env[c.param := v])))
  {
    var cs := EnvToSubst(c.env);
    assert ToExpr(c) == Fun(c.param, SubstAll(c.body, cs - {c.param}));
    assert WellScopedEnv(c.env);
    EnvToSubstClosed(c.env);
    ToExprClosed(v);
    SubstAfterSubstAll(c.body, cs, c.param, ToExpr(v));
    EnvToSubstUpdate(c.env, c.param, v);
  }

  /** The closure evaluator, read back, is the substitution evaluator run on
      the expression with its environment substituted in: for every amount of
      fuel the outcomes are equal, values, failures and running out alike. */
  lemma {:induction false} EvalAgree(fuel: nat, e: Expr, env: Env)
    requires WellScopedEnv(env) && FreeVars(e) <= env.Keys
    ensures Ast.Eval(fuel, SubstAll(e, EnvToSubst(env))) == ToResult(AstClosure.Eval(fuel, e, env))
    decreases fuel, e, 1
  {
    match e
    case Int(_) =>
    case Var(y) =>
      ToExprClosed(env[y]);
      Ast.EvalValue(fuel, ToExpr(env[y]));
    case Fun(x, body) =>
      assert ToExpr(VClosure(x, body, env)) == Fun(x, SubstAll(body, EnvToSubst(env) - {x}));
    case Sub(e1, e2) =>
      EvalAgree(fuel, e1, env);
      EvalAgree(fuel, e2, env);
    case If(e1, e2, e3, e4) =>
      EvalAgree(fuel, e1, env);
      EvalAgree(fuel, e2, env);
      EvalAgree(fuel, e3, env);
      EvalAgree(fuel, e4, env);
    case App(e1, e2) =>
      EvalAgreeApp(fuel, e1, e2, env);
  }

  /** The application case of `EvalAgree`. */
  lemma {:induction false} EvalAgreeApp(fuel: nat, e1: Expr, e2: Expr, env: Env)
    requires WellScopedEnv(env) && FreeVars(App(e1, e2)) <= env.Keys
    ensures Ast.Eval(fuel, SubstAll(App(e1, e2), EnvToSubst(env)))
         == ToResult(AstClosure.Eval(fuel, App(e1, e2), env))
    decreases fuel, App(e1, e2), 0
  {
    EvalAgree(fuel, e1, env);
    EvalAgree(fuel, e2, env);
    var f, a := AstClosure.Eval(fuel, e1, env), AstClosure.Eval(fuel, e2, env);
    if f.Ok? && f.value.VClosure? && a.Ok? {
      EvalWellScoped(fuel, e1, env);
      EvalWellScoped(fuel, e2, env);
      ApplyToExpr(f.value, a.value);
      if 0 < fuel {
        EvalAgreeCall(fuel - 1, f.value, a.value);
      }
    }
  }

  /** Running the body of a closure on an argument agrees with running the
      body of its read-back on the read-back argument. */
  lemma {:induction false} EvalAgreeCall(fuel: nat, c: Value, v: Value)
    requires c.VClosure? && WellScoped(c) && WellScoped(v)
    ensures Ast.Subst(ToExpr(c).body, c.param, ToExpr(v)).Ok?
    ensures Ast.Eval(fuel, Ast.Subst(ToExpr(c).body, c.param, ToExpr(v)).value)
         == ToResult(AstClosure.Eval(fuel, c.body, c.env[c.param := v]))
    decreases fuel, c.body, 2
  {
    ApplyToExpr(c, v);
    var env' := c.env[c.param := v];
    assert WellScopedEnv(env');
    EvalAgree(fuel, c.body, env');
  }

  /** For a closed expression and the empty environment, the two evaluators
      have equal outcomes, with no condition on the names of its binders. */
  lemma ClosedAgree(fuel: nat, e: Expr)
    requires Closed(e)
    ensures Ast.Eval(fuel, e) == ToResult(AstClosure.Eval(fuel, e, map[]))
  {
    SubstAllEmpty(e);
    assert EnvToSubst(map[]) == map[];
    EvalAgree(fuel, e, map[]);
  }

  /** When both evaluators finish with an integer on the same closed
      expression, whatever fuel each was given, the integers are equal. */
  lemma SameInteger(fuel1: nat, fuel2: nat, e: Expr, n: int, m: int)
    requires Closed(e)
    requires Ast.Eval(fuel1, e) == Ok(Int(n))
    requires AstClosure.Eval(fuel2, e, map[]) == Ok(VInt(m))
    ensures n == m
  {
    var fuel := if fuel1 <= fuel2 then fuel2 else fuel1;
    Ast.EvalMoreFuel(fuel1, fuel, e);
    AstClosure.EvalMoreFuel(fuel2, fuel, e, map[]);
    ClosedAgree(fuel, e);
  }

  /** The closure evaluator also computes `abs (-42)` as 42. */
  lemma DefFunctionByClosures(fuel: nat)
    requires 2 <= fuel
    ensures AstClosure.Eval(fuel, Program.DefFunction(), map[]) == Ok(VInt(42))
  {
    Program.DefFunctionValue(fuel);
    ClosedAgree(fuel, Program.DefFunction());
  }
}
