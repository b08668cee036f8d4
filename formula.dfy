/**
 * An indicator's computing formula as an arithmetic expression over variable
 * codes. The source evaluates the formula text with Python's `eval` after
 * rewriting `^` into `**`; the model takes the parsed expression, with `Pow`
 * standing for `^` and a natural-number exponent.
 *
 * Evaluation follows Python on `Decimal` operands: literals are integers; operands are evaluated left to right; an unknown
 * code raises NameError (Unbound); a code bound to no value (a `get_value_at`
 * with no row) is None, which the formula may return as is but which any
 * arithmetic on it rejects (TypeError, here NoValue); division by zero raises.
 */
module Formula {
  import opened Wrappers
  import opened Geo
  import opened Reducers

  /**
   * A literal is an integer: the operands are `Decimal` values, which Python
   * combines with an `int` but not with a `float` (TypeError).
   */
  datatype Expr =
    | Const(c: int)
    | Var(code: Code)
    | Add(left: Expr, right: Expr)
    | Sub(left: Expr, right: Expr)
    | Mul(left: Expr, right: Expr)
    | Div(left: Expr, right: Expr)
    | Pow(base: Expr, exponent: nat)

  datatype FormulaError = Unbound(code: Code) | NoValue | DivisionByZero

  /** The names `eval` is given: each code's value at the date, None where there is none. */
  type Env = map<Code, Option<real>>

  function FreeVars(e: Expr): set<Code>
  {
    match e
    case Const(_) => {}
    case Var(c) => {c}
    case Add(l, r) => FreeVars(l) + FreeVars(r)
    case Sub(l, r) => FreeVars(l) + FreeVars(r)
    case Mul(l, r) => FreeVars(l) + FreeVars(r)
    case Div(l, r) => FreeVars(l) + FreeVars(r)
    case Pow(b, _) => FreeVars(b)
  }

  /** No division anywhere in the expression. */
  predicate DivFree(e: Expr)
  {
    match e
    case Const(_) => true
    case Var(_) => true
    case Add(l, r) => DivFree(l) && DivFree(r)
    case Sub(l, r) => DivFree(l) && DivFree(r)
    case Mul(l, r) => DivFree(l) && DivFree(r)
    case Div(_, _) => false
    case Pow(b, _) => DivFree(b)
  }

  /** `x ** n` for a natural exponent. */
  function Power(x: real, n: nat): real
  {
    if n == 0 then 1.0 else x * Power(x, n - 1)
  }

  datatype BinOp = Plus | Minus | Times | Over

  /** A binary operator on two evaluated operands. */
  function Apply(op: BinOp, a: Option<real>, b: Option<real>): Result<Option<real>, FormulaError>
  {
    if a.None? || b.None? then Err(NoValue)
    else
      match op
      case Plus => Ok(Some(a.value + b.value))
      case Minus => Ok(Some(a.value - b.value))
      case Times => Ok(Some(a.value * b.value))
      case Over => if b.value == 0.0 then Err(DivisionByZero) else Ok(Some(a.value / b.value))
  }

  function Eval(e: Expr, env: Env): Result<Option<real>, FormulaError>
  {
    match e
    case Const(c) => Ok(Some(c as real))
    case Var(c) => if c in env then Ok(env[c]) else Err(Unbound(c))
    case Add(l, r) => var a :- Eval(l, env); var b :- Eval(r, env); Apply(Plus, a, b)
    case Sub(l, r) => var a :- Eval(l, env); var b :- Eval(r, env); Apply(Minus, a, b)
    case Mul(l, r) => var a :- Eval(l, env); var b :- Eval(r, env); Apply(Times, a, b)
    case Div(l, r) => var a :- Eval(l, env); var b :- Eval(r, env); Apply(Over, a, b)
    case Pow(b, n) =>
      var a :- Eval(b, env);
      if a.None? then Err(NoValue) else Ok(Some(Power(a.value, n)))
  }

  /** The formula the help text promises for a blank one: the codes added left to right. */
  function DefaultFormula(codes: seq<Code>): (e: Expr)
    ensures FreeVars(e) == set c | c in codes
    ensures DivFree(e)
  {
    if codes == [] then Const(0)
    else if |codes| == 1 then Var(codes[0])
    else Add(DefaultFormula(codes[..|codes| - 1]), Var(codes[|codes| - 1]))
  }

  /** Every code is bound to a value. */
  ghost predicate Valued(codes: seq<Code>, env: Env)
  {
    forall c :: c in codes ==> c in env && env[c].Some?
  }

  /** The values the codes are bound to, in order. */
  function Amounts(codes: seq<Code>, env: Env): (r: seq<real>)
    requires Valued(codes, env)
    ensures |r| == |codes|
    ensures forall i :: 0 <= i < |codes| ==> codes[i] in env && r[i] == env[codes[i]].value
  {
    if codes == [] then []
    else Amounts(codes[..|codes| - 1], env) + [env[codes[|codes| - 1]].value]
  }

  // ---------------------------------------------------------------------------
  // Properties

  /** `x ** (m + n) == x ** m * x ** n`. */
  lemma {:induction false} PowerAdd(x: real, m: nat, n: nat)
    ensures Power(x, m + n) == Power(x, m) * Power(x, n)
  {
    if m > 0 {
      PowerAdd(x, m - 1, n);
      assert Power(x, m + n) == x * Power(x, m - 1 + n);
    }
  }

  /** `(x ** m) ** n == x ** (m * n)`. */
  lemma {:induction false} PowerMul(x: real, m: nat, n: nat)
    ensures Power(Power(x, m), n) == Power(x, m * n)
  {
    if n > 0 {
      PowerMul(x, m, n - 1);
      assert m * n == m + m * (n - 1);
      PowerAdd(x, m, m * (n - 1));
    }
  }

  /** `^` is exponentiation: a power of a power multiplies the exponents. */
  lemma PowPow(e: Expr, m: nat, n: nat, env: Env)
    ensures Eval(Pow(Pow(e, m), n), env) == Eval(Pow(e, m * n), env)
  {
    var a := Eval(e, env);
    if a.Ok? && a.value.Some? {
      PowerMul(a.value.value, m, n);
    }
  }

  /** `^` is exponentiation, not Python's exclusive or: one more power is one more factor. */
  lemma PowStep(e: Expr, n: nat, env: Env)
    ensures Eval(Pow(e, n + 1), env) == Eval(Mul(Pow(e, n), e), env)
  {
    var a := Eval(e, env);
    if a.Ok? && a.value.Some? {
      var x := a.value.value;
      assert Eval(Pow(e, n), env) == Ok(Some(Power(x, n)));
      assert Eval(Mul(Pow(e, n), e), env).value.value == Power(x, n) * x;
      assert Eval(Pow(e, n + 1), env).value.value == x * Power(x, n);
      assert Eval(Mul(Pow(e, n), e), env).Ok? && Eval(Mul(Pow(e, n), e), env).value.Some?;
    }
  }

  /** The result depends only on the values of the codes the formula mentions. */
  lemma {:induction false} EvalLocal(e: Expr, env1: Env, env2: Env)
    requires forall c :: c in FreeVars(e) ==> (c in env1 <==> c in env2)
    requires forall c :: c in FreeVars(e) && c in env1 && c in env2 ==> env1[c] == env2[c]
    ensures Eval(e, env1) == Eval(e, env2)
  {
    match e
    case Const(_) =>
    case Var(_) =>
    case Add(l, r) => EvalLocal(l, env1, env2); EvalLocal(r, env1, env2);
    case Sub(l, r) => EvalLocal(l, env1, env2); EvalLocal(r, env1, env2);
    case Mul(l, r) => EvalLocal(l, env1, env2); EvalLocal(r, env1, env2);
    case Div(l, r) => EvalLocal(l, env1, env2); EvalLocal(r, env1, env2);
    case Pow(b, _) => EvalLocal(b, env1, env2);
  }

  /** A NameError names a code the formula uses and the names do not bind. */
  lemma {:induction false} EvalUnbound(e: Expr, env: Env, c: Code)
    requires Eval(e, env) == Err(Unbound(c))
    ensures c in FreeVars(e) && c !in env
  {
    match e
    case Const(_) =>
    case Var(_) =>
    case Add(l, r) => if Eval(l, env).Err? { EvalUnbound(l, env, c); } else { EvalUnbound(r, env, c); }
    case Sub(l, r) => if Eval(l, env).Err? { EvalUnbound(l, env, c); } else { EvalUnbound(r, env, c); }
    case Mul(l, r) => if Eval(l, env).Err? { EvalUnbound(l, env, c); } else { EvalUnbound(r, env, c); }
    case Div(l, r) => if Eval(l, env).Err? { EvalUnbound(l, env, c); } else { EvalUnbound(r, env, c); }
    case Pow(b, _) => EvalUnbound(b, env, c);
  }

  /** A formula without division over codes that all have values always yields a value. */
  lemma {:induction false} EvalDefined(e: Expr, env: Env)
    requires DivFree(e)
    requires forall c :: c in FreeVars(e) ==> c in env && env[c].Some?
    ensures Eval(e, env).Ok? && Eval(e, env).value.Some?
  {
    match e
    case Const(_) =>
    case Var(_) =>
    case Add(l, r) => EvalDefined(l, env); EvalDefined(r, env);
    case Sub(l, r) => EvalDefined(l, env); EvalDefined(r, env);
    case Mul(l, r) => EvalDefined(l, env); EvalDefined(r, env);
    case Div(l, r) =>
    case Pow(b, _) => EvalDefined(b, env);
  }

  /** The default formula evaluates to the sum of the codes' values. */
  lemma {:induction false} DefaultFormulaSums(codes: seq<Code>, env: Env)
    requires Valued(codes, env)
    ensures Eval(DefaultFormula(codes), env) == Ok(Some(Sum(Amounts(codes, env))))
  {
    if |codes| == 1 {
      assert Amounts(codes, env) == [env[codes[0]].value];
      assert Sum([env[codes[0]].value]) == env[codes[0]].value + Sum([]);
    } else if |codes| > 1 {
      var init, last := codes[..|codes| - 1], codes[|codes| - 1];
      assert Valued(init, env) by {
        assert forall c :: c in init ==> c in codes;
      }
      assert last in codes;
      DefaultFormulaSums(init, env);
      SumAppend(Amounts(init, env), [env[last].value]);
      assert Sum([env[last].value]) == env[last].value + Sum([]);
    }
  }
}
