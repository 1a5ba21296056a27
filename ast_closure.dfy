/** The closure evaluator: evaluation against an environment, where a
    function literal evaluates to a closure that captures the environment. */
module AstClosure {
  import opened Wrappers
  import opened Syntax

  /** A value is an integer or a closure: a function literal's parameter and
      body together with the environment current when it was evaluated. */
  datatype Value =
    | VInt(i: int)
    | VClosure(param: string, body: Expr, env: map<string, Value>)

  /** Bindings of names to values; extending one yields a new map and leaves
      the old one as it was. */
  type Env = map<string, Value>

  /** Evaluates `e` in `env`. `fuel` bounds the depth of nested function
      applications: an application that would need more yields `OutOfFuel`.
      Every other failure is the source's `Err`. A function literal
      evaluates, with any fuel, to a closure that captures exactly the
      current environment. */
  function Eval(fuel: nat, e: Expr, env: Env): (r: Result<Value>)
    ensures e.Fun? ==> r == Ok(VClosure(e.param, e.body, env))
    decreases fuel, e
  {
    match e
    case Int(i) => Ok(VInt(i))
    case Var(x) =>
      if x in env then Ok(env[x]) else Err
    case Sub(e1, e2) =>
      var a :- Eval(fuel, e1, env);
      if !a.VInt? then Err
      else
        var b :- Eval(fuel, e2, env);
        if !b.VInt? then Err
        else Ok(VInt(a.i - b.i))
    case If(e1, e2, e3, e4) =>
      var a :- Eval(fuel, e1, env);
      if !a.VInt? then Err
      else
        var b :- Eval(fuel, e2, env);
        if !b.VInt? then Err
        else if a.i <= b.i then Eval(fuel, e3, env)
        else Eval(fuel, e4, env)
    case Fun(x, body) => Ok(VClosure(x, body, env))
    case App(e1, e2) =>
      var f :- Eval(fuel, e1, env);
      if !f.VClosure? then Err
      else
        var v :- Eval(fuel, e2, env);
        if fuel == 0 then OutOfFuel
        else Eval(fuel - 1, f.body, f.env[f.param := v])
  }

  /** An integer literal evaluates to that integer in every environment. */
  lemma EvalInt(fuel: nat, i: int, env: Env)
    ensures Eval(fuel, Int(i), env) == Ok(VInt(i))
  {
  }

  /** A variable evaluates to its binding, and fails when it has none; so
      every variable fails in the empty environment. */
  lemma EvalVar(fuel: nat, x: string, env: Env)
    ensures Eval(fuel, Var(x), env).Ok? <==> x in env
    ensures x in env ==> Eval(fuel, Var(x), env).value == env[x]
    ensures Eval(fuel, Var(x), map[]) == Err
  {
  }

  /** `Sub` succeeds exactly when both operands, evaluated in the same
      environment, are integers, and then yields their difference. */
  lemma EvalSub(fuel: nat, e1: Expr, e2: Expr, env: Env)
    ensures var r, a, b := Eval(fuel, Sub(e1, e2), env), Eval(fuel, e1, env), Eval(fuel, e2, env);
      && (r.Ok? <==> a.Ok? && a.value.VInt? && b.Ok? && b.value.VInt?)
      && (a.Ok? && a.value.VInt? && b.Ok? && b.value.VInt? ==> r == Ok(VInt(a.value.i - b.value.i)))
      && (a.IsFailure() ==> r == a.PropagateFailure())
      && (a.Ok? && a.value.VClosure? ==> r == Err)
      && (a.Ok? && a.value.VInt? && b.IsFailure() ==> r == b.PropagateFailure())
      && (a.Ok? && a.value.VInt? && b.Ok? && b.value.VClosure? ==> r == Err)
  {
  }

  /** `If` evaluates only the chosen branch, in the same environment: `e3`
      when the first operand is at most the second, `e4` otherwise; an
      operand that is a closure makes it fail. */
  lemma EvalIf(fuel: nat, e1: Expr, e2: Expr, e3: Expr, e4: Expr, env: Env)
    ensures var r, a, b := Eval(fuel, If(e1, e2, e3, e4), env), Eval(fuel, e1, env), Eval(fuel, e2, env);
      && (a.Ok? && a.value.VInt? && b.Ok? && b.value.VInt? ==>
            r == if a.value.i <= b.value.i then Eval(fuel, e3, env) else Eval(fuel, e4, env))
      && (a.IsFailure() ==> r == a.PropagateFailure())
      && (a.Ok? && a.value.VClosure? ==> r == Err)
      && (a.Ok? && a.value.VInt? && b.IsFailure() ==> r == b.PropagateFailure())
      && (a.Ok? && a.value.VInt? && b.Ok? && b.value.VClosure? ==> r == Err)
  {
  }

  /** Application fails unless the callee is a closure; the body is then
      evaluated in the closure's own environment extended with the parameter,
      which overrides an earlier binding of that name. The caller's
      environment is used only for the callee and the argument. */
  lemma EvalApp(fuel: nat, e1: Expr, e2: Expr, env: Env)
    ensures var r, f, a := Eval(fuel, App(e1, e2), env), Eval(fuel, e1, env), Eval(fuel, e2, env);
      && (f.IsFailure() ==> r == f.PropagateFailure())
      && (f.Ok? && f.value.VInt? ==> r == Err)
      && (f.Ok? && f.value.VClosure? && a.IsFailure() ==> r == a.PropagateFailure())
      && (f.Ok? && f.value.VClosure? && a.Ok? && fuel == 0 ==> r == OutOfFuel)
      && (f.Ok? && f.value.VClosure? && a.Ok? && 0 < fuel ==>
            r == Eval(fuel - 1, f.value.body, f.value.env[f.value.param := a.value]))
  {
  }

  /** Fuel only bounds evaluation: a run that finished with some fuel gives
      the same outcome with any larger amount. */
  lemma {:induction false} EvalMoreFuel(fuel: nat, more: nat, e: Expr, env: Env)
    requires fuel <= more
    requires Eval(fuel, e, env) != OutOfFuel
    ensures Eval(more, e, env) == Eval(fuel, e, env)
    decreases fuel, e, 1
  {
    match e
    case Int(_) =>
    case Var(_) =>
    case Fun(_, _) =>
    case Sub(e1, e2) =>
      EvalMoreFuel(fuel, more, e1, env);
      if Eval(fuel, e1, env).Ok? && Eval(fuel, e1, env).value.VInt? {
        EvalMoreFuel(fuel, more, e2, env);
      }
    case If(e1, e2, e3, e4) =>
      EvalMoreFuelIf(fuel, more, e1, e2, e3, e4, env);
    case App(e1, e2) =>
      EvalMoreFuelApp(fuel, more, e1, e2, env);
  }

  /** The conditional case of `EvalMoreFuel`. */
  lemma {:induction false} EvalMoreFuelIf(fuel: nat, more: nat, e1: Expr, e2: Expr, e3: Expr, e4: Expr, env: Env)
    requires fuel <= more
    requires Eval(fuel, If(e1, e2, e3, e4), env) != OutOfFuel
    ensures Eval(more, If(e1, e2, e3, e4), env) == Eval(fuel, If(e1, e2, e3, e4), env)
    decreases fuel, If(e1, e2, e3, e4), 0
  {
    EvalMoreFuel(fuel, more, e1, env);
    if Eval(fuel, e1, env).Ok? && Eval(fuel, e1, env).value.VInt? {
      EvalMoreFuel(fuel, more, e2, env);
      if Eval(fuel, e2, env).Ok? && Eval(fuel, e2, env).value.VInt? {
        if Eval(fuel, e1, env).value.i <= Eval(fuel, e2, env).value.i {
          EvalMoreFuel(fuel, more, e3, env);
        } else {
          EvalMoreFuel(fuel, more, e4, env);
        }
      }
    }
  }

  /** The application case of `EvalMoreFuel`. */
  lemma {:induction false} EvalMoreFuelApp(fuel: nat, more: nat, e1: Expr, e2: Expr, env: Env)
    requires fuel <= more
    requires Eval(fuel, App(e1, e2), env) != OutOfFuel
    ensures Eval(more, App(e1, e2), env) == Eval(fuel, App(e1, e2), env)
    decreases fuel, App(e1, e2), 0
  {
    EvalMoreFuel(fuel, more, e1, env);
    var f := Eval(fuel, e1, env);
    if f.Ok? && f.value.VClosure? {
      EvalMoreFuel(fuel, more, e2, env);
      var a := Eval(fuel, e2, env);
      if a.Ok? && 0 < fuel {
        EvalMoreFuel(fuel - 1, more - 1, f.value.body, f.value.env[f.value.param := a.value]);
      }
    }
  }


  /** A value whose closures mention no name their environments cannot
      supply: every free name of a closure body is its parameter or bound in
      its environment, and so on for the values in that environment. */
  predicate WellScoped(v: Value)
    decreases v
  {
    match v
    case VInt(_) => true
    case VClosure(x, body, env) =>
      && FreeVars(body) <= env.Keys + {x}
      && forall y | y in env :: WellScoped(env[y])
  }

  predicate WellScopedEnv(env: Env) {
    forall y | y in env :: WellScoped(env[y])
  }

  /** Evaluating an expression whose free names are all bound, in a
      well-scoped environment, yields a well-scoped value: a closure never
      meets a name its captured environment lacks. */
  lemma {:induction false} EvalWellScoped(fuel: nat, e: Expr, env: Env)
    requires WellScopedEnv(env) && FreeVars(e) <= env.Keys
    requires Eval(fuel, e, env).Ok?
    ensures WellScoped(Eval(fuel, e, env).value)
    decreases fuel, e
  {
    match e
    case Int(_) =>
    case Var(_) =>
    case Fun(_, _) =>
    case Sub(_, _) =>
    case If(e1, e2, e3, e4) =>
      if Eval(fuel, e1, env).value.i <= Eval(fuel, e2, env).value.i {
        EvalWellScoped(fuel, e3, env);
      } else {
        EvalWellScoped(fuel, e4, env);
      }
    case App(e1, e2) =>
      EvalWellScoped(fuel, e1, env);
      EvalWellScoped(fuel, e2, env);
      var f, a := Eval(fuel, e1, env).value, Eval(fuel, e2, env).value;
      var env' := f.env[f.param := a];
      assert WellScopedEnv(env');
      EvalWellScoped(fuel - 1, f.body, env');
  }

  /** Shadowing: in `(fun x -> fun x -> x) 1 2` the inner binding of `x`
      overrides the outer one, so the result is 2. */
  lemma ShadowingExample(fuel: nat)
    requires 1 <= fuel
    ensures Eval(fuel, App(App(Fun("x", Fun("x", Var("x"))), Int(1)), Int(2)), map[]) == Ok(VInt(2))
  {
    var m1: Env := map[]["x" := VInt(1)];
    assert Eval(fuel, App(Fun("x", Fun("x", Var("x"))), Int(1)), map[])
        == Eval(fuel - 1, Fun("x", Var("x")), m1)
        == Ok(VClosure("x", Var("x"), m1));
    assert Eval(fuel - 1, Var("x"), m1["x" := VInt(2)]) == Ok(VInt(2));
  }

  /** Lexical scoping: a closure's free name keeps the value it had where the
      closure was made, whatever the caller binds to that name. */
  lemma {:induction false} LexicalScope(fuel: nat, env: Env, f: string, x: string, z: string, cenv: Env, arg: Expr)
    requires 0 < fuel
    requires z != x && z in cenv
    requires f in env && env[f] == VClosure(x, Var(z), cenv)
    requires Eval(fuel, arg, env).Ok?
    ensures Eval(fuel, App(Var(f), arg), env) == Ok(cenv[z])
  {
    var v := Eval(fuel, arg, env).value;
    assert Eval(fuel - 1, Var(z), cenv[x := v]) == Ok(cenv[z]);
  }

  /** `let z = 1 in let f = fun x -> z in let z = 2 in f 0` evaluates to 1:
      `f` sees the `z` of its definition, not the one at the call. */
  lemma LexicalScopeExample(fuel: nat)
    requires 4 <= fuel
    ensures Eval(fuel, Let("z", Int(1), Let("f", Fun("x", Var("z")), Let("z", Int(2), App(Var("f"), Int(0))))), map[])
         == Ok(VInt(1))
  {
    var m1: Env := map[]["z" := VInt(1)];
    var c := VClosure("x", Var("z"), m1);
    var m2 := m1["f" := c];
    var m3 := m2["z" := VInt(2)];
    assert Eval(fuel - 3, App(Var("f"), Int(0)), m3) == Ok(VInt(1)) by {
      assert Eval(fuel - 4, Var("z"), m1["x" := VInt(0)]) == Ok(VInt(1));
    }
    assert Eval(fuel - 2, Let("z", Int(2), App(Var("f"), Int(0))), m2) == Ok(VInt(1));
    assert Eval(fuel - 1, Let("f", Fun("x", Var("z")), Let("z", Int(2), App(Var("f"), Int(0)))), m1) == Ok(VInt(1));
  }
}
