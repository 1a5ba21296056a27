/** The stand-alone program: a second copy of the substitution evaluator
    that signals failure with `None` instead of `Err`, and its two example
    expressions. */
module Program {
  import opened Wrappers
  import opened Syntax
  import Ast

  /** Substitution with an `Option` result; it agrees with `Ast.Subst`, so it
      always returns `Some` (`SubstSome`). */
  function Subst(e: Expr, x: string, v: Expr): (r: Option<Expr>)
    ensures r == Ast.Subst(e, x, v).ToOption()
  {
    match e
    case Int(_) => Some(e)
    case Var(y) =>
      if x == y then Some(v) else Some(Var(y))
    case Sub(e1, e2) =>
      var i :- Subst(e1, x, v);
      var j :- Subst(e2, x, v);
      Some(Sub(i, j))
    case If(e1, e2, e3, e4) =>
      var i :- Subst(e1, x, v);
      var j :- Subst(e2, x, v);
      var k :- Subst(e3, x, v);
      var l :- Subst(e4, x, v);
      Some(If(i, j, k, l))
    case Fun(y, body) =>
      if x == y then Some(Fun(y, body))
      else
        var w :- Subst(body, x, v);
        Some(Fun(y, w))
    case App(e1, e2) =>
      var i :- Subst(e1, x, v);
      var j :- Subst(e2, x, v);
      Some(App(i, j))
  }

  /** Evaluation with an `Option` result. Running out of `fuel` (the bound on
      nested applications) also gives `None`; with that reading it agrees
      with `Ast.Eval`, of which every `Err` and `OutOfFuel` becomes `None`. */
  function Eval(fuel: nat, e: Expr): (r: Option<Expr>)
    ensures r == Ast.Eval(fuel, e).ToOption()
    decreases fuel, e
  {
    match e
    case Int(_) => Some(e)
    case Sub(e1, e2) =>
      (match Eval(fuel, e1)
       case Some(Int(i)) =>
         (match Eval(fuel, e2)
          case Some(Int(j)) => Some(Int(i - j))
          case _ => None)
       case _ => None)
    case If(e1, e2, e3, e4) =>
      (match Eval(fuel, e1)
       case Some(Int(i)) =>
         (match Eval(fuel, e2)
          case Some(Int(j)) => if i <= j then Eval(fuel, e3) else Eval(fuel, e4)
          case _ => None)
       case _ => None)
    case Fun(_, _) => Some(e)
    case App(e1, e2) =>
      (match Eval(fuel, e1)
       case Some(Fun(x, body)) =>
         (match Eval(fuel, e2)
          case Some(v) =>
            (match Subst(body, x, v)
             case Some(ee) => if fuel == 0 then None else Eval(fuel - 1, ee)
             case None => None)
          case None => None)
       case _ => None)
    case _ => None
  }

  /** Substitution always succeeds. */
  lemma SubstSome(e: Expr, x: string, v: Expr)
    ensures Subst(e, x, v).Some?
  {
    Ast.SubstTotal(e, x, v);
  }

  /** Integers and functions evaluate to themselves; a variable reaches the
      catch-all arm and gives `None`. */
  lemma EvalLeaves(fuel: nat, e: Expr)
    requires e.Int? || e.Fun? || e.Var?
    ensures Eval(fuel, e) == if e.Var? then None else Some(e)
  {
  }

  /** `Sub` gives `Some(Int(i - j))` when both operands evaluate to integers
      `i` and `j`, and `None` otherwise. */
  lemma EvalSub(fuel: nat, e1: Expr, e2: Expr)
    ensures var a, b := Eval(fuel, e1), Eval(fuel, e2);
      Eval(fuel, Sub(e1, e2)) ==
        if a.Some? && a.value.Int? && b.Some? && b.value.Int?
        then Some(Int(a.value.i - b.value.i))
        else None
  {
  }

  /** `If` gives the value of `e3` when the first operand is at most the
      second, that of `e4` when it is greater, and `None` when an operand is
      not an integer; the other branch does not matter. */
  lemma EvalIf(fuel: nat, e1: Expr, e2: Expr, e3: Expr, e4: Expr)
    ensures var a, b := Eval(fuel, e1), Eval(fuel, e2);
      Eval(fuel, If(e1, e2, e3, e4)) ==
        if a.Some? && a.value.Int? && b.Some? && b.value.Int?
        then (if a.value.i <= b.value.i then Eval(fuel, e3) else Eval(fuel, e4))
        else None
  {
  }

  /** Applying anything but a function gives `None`. */
  lemma EvalAppNotFun(fuel: nat, e1: Expr, e2: Expr)
    requires Eval(fuel, e1).None? || !Eval(fuel, e1).value.Fun?
    ensures Eval(fuel, App(e1, e2)) == None
  {
  }

  /** The first example: `1 - (0 - 2)`, a closed program. */
  function Tashizan(): (r: Expr)
    ensures Closed(r)
  {
    Sub(Int(1), Sub(Int(0), Int(2)))
  }

  /** The second example: `let abs = fun x -> if x <= 0 then 0 - x else x in abs (-42)`,
      a closed program. */
  function DefFunction(): (r: Expr)
    ensures Closed(r)
  {
    Let("abs",
        Fun("x", If(Var("x"), Int(0), Sub(Int(0), Var("x")), Var("x"))),
        App(Var("abs"), Int(-42)))
  }

  /** `1 - (0 - 2)` evaluates to 3. */
  lemma TashizanValue(fuel: nat)
    ensures Eval(fuel, Tashizan()) == Some(Int(3))
  {
  }

  /** `abs (-42)` evaluates to 42, given fuel for its two nested applications. */
  lemma DefFunctionValue(fuel: nat)
    requires 2 <= fuel
    ensures Eval(fuel, DefFunction()) == Some(Int(42))
  {
    assert Ast.Eval(2, DefFunction()) == Ok(Int(42));
    Ast.EvalMoreFuel(2, fuel, DefFunction());
  }
}
