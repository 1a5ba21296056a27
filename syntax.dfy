/** The expression language shared by both evaluators, its derived forms and
    its free variables. */
module Syntax {

  /** An expression tree. `If(e1, e2, e3, e4)` takes `e3` when `e1 <= e2` and
      `e4` otherwise; `Fun(x, e)` is a one-parameter function literal. The
      builders `_int`, `_var`, `_sub`, `_if`, `_app` and `_fun` of the source
      are these constructors themselves. */
  datatype Expr =
    | Int(i: int)
    | Sub(left: Expr, right: Expr)
    | If(cond: Expr, bound: Expr, thn: Expr, els: Expr)
    | App(callee: Expr, arg: Expr)
    | Var(name: string)
    | Fun(param: string, body: Expr)

  /** Negation, derived: `0 - e`; it brings in no name. */
  function Negate(e: Expr): (r: Expr)
    ensures FreeVars(r) == FreeVars(e)
  {
    Sub(Int(0), e)
  }

  /** Addition, derived: `e1 - (0 - e2)`; its free names are its operands'. */
  function Plus(e1: Expr, e2: Expr): (r: Expr)
    ensures FreeVars(r) == FreeVars(e1) + FreeVars(e2)
  {
    Sub(e1, Negate(e2))
  }

  /** `let x = e1 in e2`, derived as the immediate application of
      `fun x -> e2`: `x` is bound in `e2` and not in `e1`. */
  function Let(x: string, e1: Expr, e2: Expr): (r: Expr)
    ensures FreeVars(r) == FreeVars(e1) + (FreeVars(e2) - {x})
  {
    App(Fun(x, e2), e1)
  }

  /** The names that occur in `e` outside the scope of a binder of that name. */
  function FreeVars(e: Expr): set<string> {
    match e
    case Int(_) => {}
    case Sub(e1, e2) => FreeVars(e1) + FreeVars(e2)
    case If(e1, e2, e3, e4) => FreeVars(e1) + FreeVars(e2) + FreeVars(e3) + FreeVars(e4)
    case App(e1, e2) => FreeVars(e1) + FreeVars(e2)
    case Var(x) => {x}
    case Fun(x, body) => FreeVars(body) - {x}
  }

  predicate Closed(e: Expr) {
    FreeVars(e) == {}
  }
}
