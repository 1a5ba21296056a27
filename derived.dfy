/** Evaluation of the derived forms `Negate`, `Plus` and `Let` by the
    substitution evaluator. */
module Derived {
  import opened Wrappers
  import opened Syntax
  import opened Ast

  /** The difference of two integer operands. */
  lemma EvalSubInts(fuel: nat, e1: Expr, e2: Expr, a: int, b: int)
    requires Eval(fuel, e1) == Ok(Int(a)) && Eval(fuel, e2) == Ok(Int(b))
    ensures Eval(fuel, Sub(e1, e2)) == Ok(Int(a - b))
  {
  }

  /** Negation: `Negate(e)` yields the negated integer of `e`. */
  lemma EvalNegate(fuel: nat, e: Expr, b: int)
    requires Eval(fuel, e) == Ok(Int(b))
    ensures Eval(fuel, Negate(e)) == Ok(Int(-b))
  {
  }

  /** Addition: `Plus(e1, e2)` yields the sum of two integer operands. */
  lemma EvalPlus(fuel: nat, e1: Expr, e2: Expr, a: int, b: int)
    requires Eval(fuel, e1) == Ok(Int(a)) && Eval(fuel, e2) == Ok(Int(b))
    ensures Eval(fuel, Plus(e1, e2)) == Ok(Int(a + b))
  {
    EvalNegate(fuel, e2, b);
    EvalSubInts(fuel, e1, Negate(e2), a, -b);
  }

  /** `let x = e1 in e2` evaluates `e1` first and then `e2` with its value
      substituted for `x`. */
  lemma EvalLet(fuel: nat, x: string, e1: Expr, e2: Expr)
    requires 0 < fuel
    ensures var a := Eval(fuel, e1);
      && (a.IsFailure() ==> Eval(fuel, Let(x, e1, e2)) == a)
      && (a.Ok? ==>
            && Subst(e2, x, a.value).Ok?
            && Eval(fuel, Let(x, e1, e2)) == Eval(fuel - 1, Subst(e2, x, a.value).value))
  {
    if Eval(fuel, e1).Ok? {
      SubstTotal(e2, x, Eval(fuel, e1).value);
    }
  }

  /** `let x = 5 in x - 2` evaluates to 3. */
  lemma LetExample(fuel: nat)
    requires 0 < fuel
    ensures Eval(fuel, Let("x", Int(5), Sub(Var("x"), Int(2)))) == Ok(Int(3))
  {
    EvalMoreFuel(1, fuel, Let("x", Int(5), Sub(Var("x"), Int(2))));
  }
}
