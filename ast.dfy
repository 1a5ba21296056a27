/** The substitution evaluator: evaluation to normal form, where applying a
    function substitutes the evaluated argument into the function body. */
module Ast {
  import opened Wrappers
  import opened Syntax

  /** `a` and `b` are built by the same constructor. */
  predicate SameForm(a: Expr, b: Expr) {
    && (a.Int? <==> b.Int?) && (a.Sub? <==> b.Sub?) && (a.If? <==> b.If?)
    && (a.App? <==> b.App?) && (a.Var? <==> b.Var?) && (a.Fun? <==> b.Fun?)
  }

  /** Replaces the free occurrences of `x` in `e` by `v`. The replacement is
      structural: a `Fun` whose parameter is `x` is left alone, and no bound
      name is ever renamed, so a free name of `v` can be captured by a binder
      of `e` (see `SubstCanCapture`). Like the source, it threads a failure
      through every recursive call; `SubstTotal` shows that none occurs.
      Every node but a replaced `Var(x)` keeps its constructor. */
  function Subst(e: Expr, x: string, v: Expr): (r: Result<Expr>)
    ensures r.Ok? && e != Var(x) ==> SameForm(r.value, e)
  {
    match e
    case Int(i) => Ok(Int(i))
    case Var(y) =>
      if x == y then Ok(v) else Ok(Var(y))
    case Sub(e1, e2) =>
      var i :- Subst(e1, x, v);
      var j :- Subst(e2, x, v);
      Ok(Sub(i, j))
    case If(e1, e2, e3, e4) =>
      var i :- Subst(e1, x, v);
      var j :- Subst(e2, x, v);
      var k :- Subst(e3, x, v);
      var l :- Subst(e4, x, v);
      Ok(If(i, j, k, l))
    case Fun(y, body) =>
      if x == y then Ok(Fun(y, body))
      else
        var b :- Subst(body, x, v);
        Ok(Fun(y, b))
    case App(e1, e2) =>
      var i :- Subst(e1, x, v);
      var j :- Subst(e2, x, v);
      Ok(App(i, j))
  }

  /** Substitution never fails. */
  lemma {:induction false} SubstTotal(e: Expr, x: string, v: Expr)
    ensures Subst(e, x, v).Ok?
  {
    match e
    case Int(_) =>
    case Var(_) =>
    case Sub(e1, e2) =>
      SubstTotal(e1, x, v);
      SubstTotal(e2, x, v);
    case If(e1, e2, e3, e4) =>
      SubstTotal(e1, x, v);
      SubstTotal(e2, x, v);
      SubstTotal(e3, x, v);
      SubstTotal(e4, x, v);
    case Fun(y, body) =>
      if x != y {
        SubstTotal(body, x, v);
      }
    case App(e1, e2) =>
      SubstTotal(e1, x, v);
      SubstTotal(e2, x, v);
  }

  /** A name that is not free is left alone; in particular substitution stops
      at a `Fun` whose parameter is the substituted name. */
  lemma {:induction false} SubstNotFree(e: Expr, x: string, v: Expr)
    requires x !in FreeVars(e)
    ensures Subst(e, x, v) == Ok(e)
  {
    match e
    case Int(_) =>
    case Var(_) =>
    case Sub(e1, e2) =>
      SubstNotFree(e1, x, v);
      SubstNotFree(e2, x, v);
    case If(e1, e2, e3, e4) =>
      SubstNotFree(e1, x, v);
      SubstNotFree(e2, x, v);
      SubstNotFree(e3, x, v);
      SubstNotFree(e4, x, v);
    case Fun(y, body) =>
      if x != y {
        SubstNotFree(body, x, v);
      }
    case App(e1, e2) =>
      SubstNotFree(e1, x, v);
      SubstNotFree(e2, x, v);
  }
  /** A name free in the result of a substitution is free in `e` and not
      `x`, or free in `v`. */
  lemma {:induction false} SubstFreeVars(e: Expr, x: string, v: Expr)
    ensures Subst(e, x, v).Ok?
    ensures FreeVars(Subst(e, x, v).value) <= (FreeVars(e) - {x}) + FreeVars(v)
  {
    match e
    case Int(_) =>
    case Var(_) =>
    case Sub(e1, e2) =>
      SubstFreeVars(e1, x, v);
      SubstFreeVars(e2, x, v);
    case If(e1, e2, e3, e4) =>
      SubstFreeVars(e1, x, v);
      SubstFreeVars(e2, x, v);
      SubstFreeVars(e3, x, v);
      SubstFreeVars(e4, x, v);
    case Fun(y, body) =>
      if x != y {
        SubstFreeVars(body, x, v);
      }
    case App(e1, e2) =>
      SubstFreeVars(e1, x, v);
      SubstFreeVars(e2, x, v);
  }


  /** Evaluates `e` to a normal form. `fuel` bounds the depth of nested
      function applications: an application that would need more yields
      `OutOfFuel`. Every other failure is the source's `Err`. */
  function Eval(fuel: nat, e: Expr): (r: Result<Expr>)
    ensures r.Ok? ==> r.value.Int? || r.value.Fun?
    decreases fuel, e
  {
    match e
    case Int(i) => Ok(Int(i))
    case Var(_) => Err
    case Sub(e1, e2) =>
      var a :- Eval(fuel, e1);
      if !a.Int? then Err
      else
        var b :- Eval(fuel, e2);
        if !b.Int? then Err
        else Ok(Int(a.i - b.i))
    case If(e1, e2, e3, e4) =>
      var a :- Eval(fuel, e1);
      if !a.Int? then Err
      else
        var b :- Eval(fuel, e2);
        if !b.Int? then Err
        else if a.i <= b.i then Eval(fuel, e3)
        else Eval(fuel, e4)
    case Fun(x, body) => Ok(Fun(x, body))
    case App(e1, e2) =>
      var f :- Eval(fuel, e1);
      if !f.Fun? then Err
      else
        var v :- Eval(fuel, e2);
        var body' :- Subst(f.body, f.param, v);
        if fuel == 0 then OutOfFuel
        else Eval(fuel - 1, body')
  }

  /** Integers and functions are already values: they evaluate to themselves. */
  lemma EvalValue(fuel: nat, e: Expr)
    requires e.Int? || e.Fun?
    ensures Eval(fuel, e) == Ok(e)
  {
  }

  /** A result of evaluation is a fixed point of evaluation. */
  lemma EvalIdempotent(fuel: nat, more: nat, e: Expr)
    requires Eval(fuel, e).Ok?
    ensures Eval(more, Eval(fuel, e).value) == Eval(fuel, e)
  {
    EvalValue(more, Eval(fuel, e).value);
  }

  /** A variable that substitution has not eliminated is an error. */
  lemma EvalVar(fuel: nat, x: string)
    ensures Eval(fuel, Var(x)) == Err
  {
  }

  /** `Sub` succeeds exactly when both operands evaluate to integers, and then
      yields their difference. */
  lemma EvalSub(fuel: nat, e1: Expr, e2: Expr)
    ensures var r, a, b := Eval(fuel, Sub(e1, e2)), Eval(fuel, e1), Eval(fuel, e2);
      && (r.Ok? <==> a.Ok? && a.value.Int? && b.Ok? && b.value.Int?)
      && (a.Ok? && a.value.Int? && b.Ok? && b.value.Int? ==> r == Ok(Int(a.value.i - b.value.i)))
  {
  }

  /** An operand of `Sub` that fails passes its failure on, and an operand
      that yields a function makes `Sub` fail. */
  lemma EvalSubFails(fuel: nat, e1: Expr, e2: Expr)
    ensures var r, a, b := Eval(fuel, Sub(e1, e2)), Eval(fuel, e1), Eval(fuel, e2);
      && (a.IsFailure() ==> r == a.PropagateFailure())
      && (a.Ok? && a.value.Fun? ==> r == Err)
      && (a.Ok? && a.value.Int? && b.IsFailure() ==> r == b.PropagateFailure())
      && (a.Ok? && a.value.Int? && b.Ok? && b.value.Fun? ==> r == Err)
  {
  }

  /** `If` compares its first two operands and evaluates only the chosen
      branch: `e3` when the first is at most the second (equality included),
      `e4` otherwise. A test operand that is a function makes it fail. */
  lemma EvalIf(fuel: nat, e1: Expr, e2: Expr, e3: Expr, e4: Expr)
    ensures var r, a, b := Eval(fuel, If(e1, e2, e3, e4)), Eval(fuel, e1), Eval(fuel, e2);
      && (a.Ok? && a.value.Int? && b.Ok? && b.value.Int? ==>
            r == if a.value.i <= b.value.i then Eval(fuel, e3) else Eval(fuel, e4))
      && (a.IsFailure() ==> r == a.PropagateFailure())
      && (a.Ok? && a.value.Fun? ==> r == Err)
      && (a.Ok? && a.value.Int? && b.IsFailure() ==> r == b.PropagateFailure())
      && (a.Ok? && a.value.Int? && b.Ok? && b.value.Fun? ==> r == Err)
  {
  }

  /** Application fails unless the callee evaluates to a function; the
      argument may evaluate to any value, a function included, and the result
      is that of evaluating the body with the argument substituted. */
  lemma EvalApp(fuel: nat, e1: Expr, e2: Expr)
    ensures var r, f, a := Eval(fuel, App(e1, e2)), Eval(fuel, e1), Eval(fuel, e2);
      && (f.IsFailure() ==> r == f.PropagateFailure())
      && (f.Ok? && f.value.Int? ==> r == Err)
      && (f.Ok? && f.value.Fun? && a.IsFailure() ==> r == a.PropagateFailure())
      && (f.Ok? && f.value.Fun? && a.Ok? && fuel == 0 ==> r == OutOfFuel)
      && (f.Ok? && f.value.Fun? && a.Ok? && 0 < fuel ==>
            && Subst(f.value.body, f.value.param, a.value).Ok?
            && r == Eval(fuel - 1, Subst(f.value.body, f.value.param, a.value).value))
  {
    var f := Eval(fuel, e1);
    if f.Ok? && f.value.Fun? && Eval(fuel, e2).Ok? {
      SubstTotal(f.value.body, f.value.param, Eval(fuel, e2).value);
    }
  }

  /** Fuel only bounds evaluation: a run that finished with some fuel gives
      the same outcome with any larger amount. */
  lemma {:induction false} EvalMoreFuel(fuel: nat, more: nat, e: Expr)
    requires fuel <= more
    requires Eval(fuel, e) != OutOfFuel
    ensures Eval(more, e) == Eval(fuel, e)
    decreases fuel, e, 1
  {
    match e
    case Int(_) =>
    case Var(_) =>
    case Fun(_, _) =>
    case Sub(e1, e2) =>
      EvalMoreFuel(fuel, more, e1);
      if Eval(fuel, e1).Ok? && Eval(fuel, e1).value.Int? {
        EvalMoreFuel(fuel, more, e2);
      }
    case If(e1, e2, e3, e4) =>
      EvalMoreFuelIf(fuel, more, e1, e2, e3, e4);
    case App(e1, e2) =>
      EvalMoreFuelApp(fuel, more, e1, e2);
  }

  /** The conditional case of `EvalMoreFuel`. */
  lemma {:induction false} EvalMoreFuelIf(fuel: nat, more: nat, e1: Expr, e2: Expr, e3: Expr, e4: Expr)
    requires fuel <= more
    requires Eval(fuel, If(e1, e2, e3, e4)) != OutOfFuel
    ensures Eval(more, If(e1, e2, e3, e4)) == Eval(fuel, If(e1, e2, e3, e4))
    decreases fuel, If(e1, e2, e3, e4), 0
  {
    EvalMoreFuel(fuel, more, e1);
    if Eval(fuel, e1).Ok? && Eval(fuel, e1).value.Int? {
      EvalMoreFuel(fuel, more, e2);
      if Eval(fuel, e2).Ok? && Eval(fuel, e2).value.Int? {
        if Eval(fuel, e1).value.i <= Eval(fuel, e2).value.i {
          EvalMoreFuel(fuel, more, e3);
        } else {
          EvalMoreFuel(fuel, more, e4);
        }
      }
    }
  }

  /** The application case of `EvalMoreFuel`. */
  lemma {:induction false} EvalMoreFuelApp(fuel: nat, more: nat, e1: Expr, e2: Expr)
    requires fuel <= more
    requires Eval(fuel, App(e1, e2)) != OutOfFuel
    ensures Eval(more, App(e1, e2)) == Eval(fuel, App(e1, e2))
    decreases fuel, App(e1, e2), 0
  {
    EvalApp(fuel, e1, e2);
    EvalApp(more, e1, e2);
    EvalMoreFuel(fuel, more, e1);
    var f := Eval(fuel, e1);
    if f.Ok? && f.value.Fun? {
      EvalMoreFuel(fuel, more, e2);
      var a := Eval(fuel, e2);
      if a.Ok? && 0 < fuel {
        EvalMoreFuel(fuel - 1, more - 1, Subst(f.value.body, f.value.param, a.value).value);
      }
    }
  }


  /** Substituting a closed value removes exactly the substituted name from
      the free variables: a closed value has nothing a binder could capture. */
  lemma {:induction false} SubstClosedFreeVars(e: Expr, x: string, v: Expr)
    requires Closed(v)
    ensures Subst(e, x, v).Ok? && FreeVars(Subst(e, x, v).value) == FreeVars(e) - {x}
    decreases e, 1
  {
    match e
    case Int(_) =>
    case Var(_) =>
    case Sub(e1, e2) =>
      SubstClosedFreeVars(e1, x, v);
      SubstClosedFreeVars(e2, x, v);
    case If(e1, e2, e3, e4) =>
      SubstClosedFreeVarsIf(e1, e2, e3, e4, x, v);
    case Fun(y, body) =>
      if x != y {
        SubstClosedFreeVars(body, x, v);
      }
    case App(e1, e2) =>
      SubstClosedFreeVars(e1, x, v);
      SubstClosedFreeVars(e2, x, v);
  }
  /** The conditional case of `SubstClosedFreeVars`. */
  lemma {:induction false} SubstClosedFreeVarsIf(e1: Expr, e2: Expr, e3: Expr, e4: Expr, x: string, v: Expr)
    requires Closed(v)
    ensures Subst(If(e1, e2, e3, e4), x, v).Ok?
    ensures FreeVars(Subst(If(e1, e2, e3, e4), x, v).value) == FreeVars(If(e1, e2, e3, e4)) - {x}
    decreases If(e1, e2, e3, e4), 0
  {
    SubstClosedFreeVars(e1, x, v);
    SubstClosedFreeVars(e2, x, v);
    SubstClosedFreeVars(e3, x, v);
    SubstClosedFreeVars(e4, x, v);
    var i, j, k, l := Subst(e1, x, v).value, Subst(e2, x, v).value, Subst(e3, x, v).value, Subst(e4, x, v).value;
    assert Subst(If(e1, e2, e3, e4), x, v) == Ok(If(i, j, k, l));
    RemoveFromUnion(FreeVars(e1), FreeVars(e2), FreeVars(e3), FreeVars(e4),
      FreeVars(i), FreeVars(j), FreeVars(k), FreeVars(l), x);
  }

  /** Removing a name from a union of four sets removes it from each. */
  lemma RemoveFromUnion(a: set<string>, b: set<string>, c: set<string>, d: set<string>,
                        a': set<string>, b': set<string>, c': set<string>, d': set<string>, x: string)
    requires a' == a - {x} && b' == b - {x} && c' == c - {x} && d' == d - {x}
    ensures a' + b' + c' + d' == (a + b + c + d) - {x}
  {
  }


  /** Substitution does not rename binders: substituting an open value under
      a binder of one of its free names captures that name. */
  lemma SubstCanCapture()
    ensures Subst(Fun("y", Var("x")), "x", Var("y")) == Ok(Fun("y", Var("y")))
    ensures FreeVars(Fun("y", Var("x"))) - {"x"} + FreeVars(Var("y")) == {"y"}
    ensures FreeVars(Fun("y", Var("y"))) == {}
  {
  }

  /** Evaluating a closed expression yields a closed value, so every
      argument the evaluator substitutes is closed and no capture happens. */
  lemma {:induction false} EvalClosed(fuel: nat, e: Expr)
    requires Closed(e)
    requires Eval(fuel, e).Ok?
    ensures Closed(Eval(fuel, e).value)
    decreases fuel, e
  {
    match e
    case Int(_) =>
    case Var(_) =>
    case Fun(_, _) =>
    case Sub(_, _) =>
    case If(e1, e2, e3, e4) =>
      if Eval(fuel, e1).value.i <= Eval(fuel, e2).value.i {
        EvalClosed(fuel, e3);
      } else {
        EvalClosed(fuel, e4);
      }
    case App(e1, e2) =>
      EvalClosed(fuel, e1);
      EvalClosed(fuel, e2);
      var f, a := Eval(fuel, e1).value, Eval(fuel, e2).value;
      SubstFreeVars(f.body, f.param, a);
      EvalClosed(fuel - 1, Subst(f.body, f.param, a).value);
  }

  /** The identity function passes its argument's outcome on: its value,
      or its failure. */
  lemma EvalIdentity(fuel: nat, e: Expr)
    requires 0 < fuel
    ensures Eval(fuel, App(Fun("x", Var("x")), e)) == Eval(fuel, e)
  {
    if Eval(fuel, e).Ok? {
      EvalValue(fuel - 1, Eval(fuel, e).value);
    }
  }

  /** Shadowing: in `(fun x -> fun x -> x) 1 2` the inner binder hides the
      outer one, so the result is 2. */
  lemma ShadowingExample(fuel: nat)
    requires 1 <= fuel
    ensures Eval(fuel, App(App(Fun("x", Fun("x", Var("x"))), Int(1)), Int(2))) == Ok(Int(2))
  {
    EvalMoreFuel(1, fuel, App(App(Fun("x", Fun("x", Var("x"))), Int(1)), Int(2)));
  }
}
