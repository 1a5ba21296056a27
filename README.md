# A tiny call-by-value language and its two evaluators, in Dafny

The repository interprets a minimal untyped functional language: integer
literals, subtraction, a four-operand conditional `If(e1, e2, e3, e4)` that
takes `e3` when `e1 <= e2`, one-parameter function literals, application and
variables. It gives two evaluators:

- the **substitution evaluator** (`src/ast.rs`, and an `Option`-returning
  copy in `src/main.rs`), which evaluates a function's body after
  substituting the evaluated argument for the parameter;
- the **closure evaluator** (`src/ast_closure.rs`), which evaluates against
  an environment and turns a function literal into a closure that captures
  the current environment.

This project models both as Dafny functions and proves what they promise,
up to an exact agreement theorem between them.

Modules:

- `Wrappers` (`wrappers.dfy`): `Result` = `Ok | Err | OutOfFuel` and
  `Option`, both usable with `:-` the way the source uses `try!`.
- `Syntax` (`syntax.dfy`): the `Expr` datatype (the three source files
  declare the same enum; it is modelled once), the derived builders
  `Negate`, `Plus`, `Let`, and `FreeVars`. The builders `_int`, `_var`,
  `_sub`, `_if`, `_app`, `_fun` only box their arguments and are the
  datatype's constructors here; `_let` of `src/main.rs:150-152` is the same
  builder as `_let` of `src/ast.rs:143-145`.
- `Ast` (`ast.dfy`): `Subst` and `Eval` of `src/ast.rs`, with lemmas.
- `Derived` (`derived.dfy`): how `Negate`, `Plus` and `Let` evaluate.
- `Program` (`program.dfy`): `Subst` and `Eval` of `src/main.rs`, proved
  equal to the `Ast` versions with every failure read as `None`, and the two
  example programs of `main`.
- `AstClosure` (`ast_closure.dfy`): `Value`, `Env` and `Eval` of
  `src/ast_closure.rs`, with lemmas.
- `Equivalence` (`equivalence.dfy`): the two evaluators agree.

Termination. The language is untyped and `(fun x -> x x) (fun x -> x x)`
diverges, so each evaluator takes a `fuel: nat` argument. Fuel is spent only
by an application, immediately before the body is evaluated (every other
recursive call is on a sub-expression), and an application reached with no
fuel left yields `OutOfFuel` — after its callee and argument have been
evaluated, so a failure there still shows as `Err`. `EvalMoreFuel` proves
that any outcome other than `OutOfFuel` stays the same with more fuel, so
the fuel only cuts off runs, it never changes their result.

Integers are mathematical (`int`). Subtraction is the mathematical
difference. It agrees with the code's `i64` `-` inside the `i64` range;
outside it the code panics or wraps (see "Left out").

Two choices of the code are kept as they are. Failures carry no payload: an unbound variable in the
closure evaluator is a bare `Err(())`, like every other failure. Substitution
is capture-naive, as written (`SubstCanCapture` shows a capture). When the
evaluated program is closed, the substitution evaluator never meets a
capture: every value it substitutes is closed (`EvalClosed`), and
substituting a closed value captures nothing (`SubstClosedFreeVars`).

## Model

| member | source | states |
|---|---|---|
| `Ast.Subst` | src/ast.rs:93-133 | every node but a replaced `Var(x)` keeps its constructor; `SubstTotal`, `SubstFreeVars`, `SubstNotFree`, `SubstClosedFreeVars` and `SubstCanCapture` state the rest |
| `Ast.SubstTotal` | src/ast.rs:93-133 | substitution never returns `Err` |
| `Ast.SubstFreeVars` | src/ast.rs:93-133 | the free names of a substitution's result are among those of `e` other than `x` and those of `v` |
| `Ast.SubstNotFree` | src/ast.rs:119-125 | when `x` is not free in `e` the result is `e` itself; in particular a `Fun` whose binder is `x` is returned untouched |
| `Ast.SubstClosedFreeVars` | src/ast.rs:93-133 | substituting a closed value removes exactly `x` from the free names: nothing is captured |
| `Ast.SubstClosedFreeVarsIf` | src/ast.rs:111-117 | the conditional case of `SubstClosedFreeVars` |
| `Ast.SubstCanCapture` | src/ast.rs:119-125 | no renaming: `Var("y")` substituted for `x` under `fun y` is captured and the result is closed |
| `Ast.Eval` | src/ast.rs:39-91 | every successful result is an `Int` or a `Fun`; the `Eval…` lemmas below state each arm, fuel monotonicity and closedness |
| `Ast.EvalValue` | src/ast.rs:41-79 | `Int(i)` and `Fun(x, e)` evaluate to themselves, with any fuel |
| `Ast.EvalIdempotent` | src/ast.rs:39-91 | a result of evaluation evaluates to itself |
| `Ast.EvalVar` | src/ast.rs:43 | a `Var` always evaluates to `Err` |
| `Ast.EvalSub` | src/ast.rs:45-57 | `Sub` succeeds iff both operands evaluate to `Int`s, and then yields `Int(i - j)` |
| `Ast.EvalSubFails` | src/ast.rs:45-57 | a failing operand passes its failure on; an operand that is a `Fun` gives `Err` |
| `Ast.EvalIf` | src/ast.rs:59-77 | with integer tests `i`, `j` the result is that of `e3` when `i <= j` (equality included) and of `e4` otherwise; a failing test passes its failure on; a `Fun` test gives `Err` |
| `Ast.EvalApp` | src/ast.rs:81-89 | a failing callee passes its failure on; an `Int` callee gives `Err`; a failing argument passes its failure on; for a `Fun` callee and an argument value, the result is `OutOfFuel` with no fuel left and otherwise the evaluation of the substituted body |
| `Ast.EvalMoreFuel` | src/ast.rs:39-91 | an outcome other than `OutOfFuel` is unchanged by more fuel |
| `Ast.EvalMoreFuelIf` | src/ast.rs:59-77 | the conditional case of `EvalMoreFuel` |
| `Ast.EvalMoreFuelApp` | src/ast.rs:81-89 | the application case of `EvalMoreFuel` |
| `Ast.EvalClosed` | src/ast.rs:81-89 | a closed expression evaluates to a closed value, so every substituted argument is closed |
| `Ast.EvalIdentity` | src/ast.rs:81-89 | with any fuel above zero, `(fun x -> x) e` has the outcome of `e`: its value, or its failure passed on |
| `Ast.ShadowingExample` | src/ast.rs:119-125 | with any fuel from 1, `(fun x -> fun x -> x) 1 2` evaluates to `Int(2)` |
| `Syntax.Negate` | src/ast.rs:135-137 | `0 - e` has the free names of `e` |
| `Syntax.Plus` | src/ast.rs:139-141 | `e1 - (0 - e2)` has the free names of `e1` and `e2`; `Derived.EvalPlus` gives its value |
| `Syntax.Let` | src/ast.rs:143-145 | `(fun x -> e2) e1` has the free names of `e1` and those of `e2` other than `x`; the same builder is `_let` of src/main.rs:150-152; `Derived.EvalLet` gives its value |
| `Derived.EvalSubInts` | src/ast.rs:45-57 | `Sub` of operands evaluating to `Int(a)`, `Int(b)` gives `Int(a - b)` |
| `Derived.EvalNegate` | src/ast.rs:135-137 | `Negate(e)` of an `Int(b)` operand gives `Int(-b)` |
| `Derived.EvalPlus` | src/ast.rs:139-141 | `Plus(e1, e2)` of `Int(a)`, `Int(b)` operands gives `Int(a + b)` |
| `Derived.EvalLet` | src/ast.rs:143-145 | `Let(x, e1, e2)` passes a failure of `e1` on, and otherwise evaluates `e2` with the value of `e1` substituted for `x` |
| `Derived.LetExample` | src/ast.rs:143-145 | `let x = 5 in x - 2` evaluates to `Int(3)` |
| `Program.Subst` | src/main.rs:72-140 | equals `Ast.Subst` with `Err` read as `None` |
| `Program.SubstSome` | src/main.rs:72-140 | substitution always returns `Some` |
| `Program.Eval` | src/main.rs:14-70 | equals `Ast.Eval` with `Ok(v)` read as `Some(v)` and every failure as `None`, so every lemma about `Ast.Eval` holds of it through `ToOption` |
| `Program.EvalLeaves` | src/main.rs:16-68 | `Int` and `Fun` evaluate to themselves; a `Var`, the only expression the catch-all arm reaches, gives `None` |
| `Program.EvalSub` | src/main.rs:18-30 | `Sub` gives `Some(Int(i - j))` when both operands evaluate to integers and `None` otherwise |
| `Program.EvalIf` | src/main.rs:32-48 | `If` gives the value of `e3` iff the tests are integers with `i <= j`, that of `e4` iff `i > j`, and `None` otherwise |
| `Program.EvalAppNotFun` | src/main.rs:52-66 | applying a callee that fails or is not a `Fun` gives `None` |
| `Program.Tashizan` | src/main.rs:155-156 | the program `1 - (0 - 2)` is closed; `TashizanValue` gives its value |
| `Program.DefFunction` | src/main.rs:158-166 | the `abs (-42)` program is closed, so the two evaluators agree on it; `DefFunctionValue` and `Equivalence.DefFunctionByClosures` give its value |
| `Program.TashizanValue` | src/main.rs:155-156 | `1 - (0 - 2)` evaluates to `Some(Int(3))` |
| `Program.DefFunctionValue` | src/main.rs:158-166 | `let abs = fun x -> if x <= 0 then 0 - x else x in abs (-42)` evaluates to `Some(Int(42))` |
| `AstClosure.Eval` | src/ast_closure.rs:26-72 | a function literal evaluates, with any fuel, to a closure capturing exactly the current environment; the lemmas below state each other arm, fuel monotonicity and scoping |
| `AstClosure.EvalInt` | src/ast_closure.rs:28 | `Int(i)` evaluates to `VInt(i)` in every environment |
| `AstClosure.EvalVar` | src/ast_closure.rs:30 | `Var(x)` succeeds iff `x` is bound, with its binding; it fails in the empty environment |
| `AstClosure.EvalSub` | src/ast_closure.rs:32-42 | `Sub` succeeds iff both operands, in the same environment, give `VInt`s, and then yields the difference; a failing operand passes its failure on; a closure operand gives `Err` |
| `AstClosure.EvalIf` | src/ast_closure.rs:44-58 | only the chosen branch is evaluated, in the same environment: `e3` when `i <= j`, `e4` otherwise; a failing test passes its failure on; a closure test gives `Err` |
| `AstClosure.EvalApp` | src/ast_closure.rs:62-70 | a failing callee or argument passes its failure on; an `Int` callee gives `Err`; with no fuel left a call is `OutOfFuel`; otherwise a closure's body is evaluated in its captured environment with the parameter bound (overriding) to the argument, not in the caller's |
| `AstClosure.EvalMoreFuel` | src/ast_closure.rs:26-72 | an outcome other than `OutOfFuel` is unchanged by more fuel |
| `AstClosure.EvalMoreFuelIf` | src/ast_closure.rs:44-58 | the conditional case of `EvalMoreFuel` |
| `AstClosure.EvalMoreFuelApp` | src/ast_closure.rs:62-70 | the application case of `EvalMoreFuel` |
| `AstClosure.EvalWellScoped` | src/ast_closure.rs:60-69 | evaluating an expression whose free names are bound, in a well-scoped environment, yields a closure whose body's free names its environment binds |
| `AstClosure.ShadowingExample` | src/ast_closure.rs:60-69 | with any fuel from 1, `(fun x -> fun x -> x) 1 2` evaluates to `VInt(2)` in the empty environment |
| `AstClosure.LexicalScope` | src/ast_closure.rs:68-69 | a closure's free name resolves to its captured binding whatever the caller binds to it |
| `AstClosure.LexicalScopeExample` | src/ast_closure.rs:60-69 | `let z = 1 in let f = fun x -> z in let z = 2 in f 0` evaluates to `VInt(1)` |
| `Equivalence.ApplyToExpr` | src/ast_closure.rs:68-69 | substituting an argument into a read-back closure's body is reading back the body in the extended environment |
| `Equivalence.EvalAgree` | src/ast_closure.rs:26-72 | for a well-scoped environment and any fuel, the closure evaluator's outcome read back equals the substitution evaluator's on the expression with the environment substituted in |
| `Equivalence.EvalAgreeApp` | src/ast_closure.rs:62-70 | the application case of that agreement |
| `Equivalence.EvalAgreeCall` | src/ast_closure.rs:67-69 | running a closure's body with the argument bound agrees with running its read-back's substituted body |
| `Equivalence.ClosedAgree` | src/ast.rs:39-91 | for a closed expression the two evaluators, started with no bindings, have equal outcomes |
| `Equivalence.SameInteger` | src/ast_closure.rs:26-72 | when both evaluators give an integer for the same closed expression, with any fuel each, the integers are equal |
| `Equivalence.DefFunctionByClosures` | src/main.rs:158-166 | the closure evaluator also computes `abs (-42)` as `VInt(42)` |

## Left out

- Integer width: `Sub` computes the mathematical difference; outside the
  range of `i64` the source panics (debug build) or wraps (release build),
  and neither is modelled.
- Divergence: a run that needs more nested applications than its fuel ends
  in `OutOfFuel`; the model says nothing about runs that never end.
- Program.Eval: running out of fuel also yields `None`, so a `None` does not
  distinguish a failure from fuel exhaustion (the `Ast` model keeps them apart).
- `print_eval` (`src/ast.rs:147-153`, `src/main.rs:142-148`) and the
  printing in `main`: console output and the panic on a failed or
  non-integer result.
- Ownership (`Box`, `clone`, moves) and the hashing of `HashMap`: values
  and maps are immutable, and the `insert` on a cloned map is a map update.
