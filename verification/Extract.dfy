/** expr_extract_eq_and / expr_extract_eq_or: factoring out common operands. */
module Extraction {
  import opened Options
  import opened Expr
  import opened Chains
  import opened ConstantElimination
  import opened Equality

  /** expr_extract_eq: c collects the operands found on both sides. Unlike cancelling, it also
      takes out flagged constants. */
  function ExtractEq(op: Op, c: Option<Expr>, a: Expr, b: Expr): (r: (Option<Expr>, Expr, Expr))
    ensures Size(r.1) <= Size(a) && Size(r.2) <= Size(b)
    decreases Size(a) + Size(b)
  {
    if IsOp(op, a) then
      var (c1, l, b1) := ExtractEq(op, c, a.left, b);
      var (c2, r, b2) := ExtractEq(op, c1, a.right, b1);
      (c2, Bin(op, l, r), b2)
    else if IsOp(op, b) then
      var (c1, a1, l) := ExtractEq(op, c, a, b.left);
      var (c2, a2, r) := ExtractEq(op, c1, a1, b.right);
      (c2, a2, Bin(op, l, r))
    else if ExprEq(a, b) then
      (Some(if c.Some? then Bin(op, c.value, a) else a), Sym(Identity(op)), Sym(Identity(op)))
    else (c, a, b)
  }

  /** expr_extract_eq_and and expr_extract_eq_or, for op And and Or. */
  function Extract(op: Op, a: Expr, b: Expr): (Option<Expr>, Expr, Expr) {
    var (c, a', b') := ExtractEq(op, None, a, b);
    if c.Some? then (c, EliminateYn(a'), EliminateYn(b')) else (c, a', b')
  }

  /** The value of what has been extracted so far; nothing counts as the identity. */
  function EvalPart(env: Env, op: Op, c: Option<Expr>): Tristate {
    if c.Some? then Eval(env, c.value) else TriOf(env, Identity(op))
  }

  /** What has been extracted joined with what remains never changes, on either side. */
  lemma {:induction false} ExtractEqFactors(env: Env, op: Op, c: Option<Expr>, a: Expr, b: Expr)
    ensures Apply(op, EvalPart(env, op, ExtractEq(op, c, a, b).0), Eval(env, ExtractEq(op, c, a, b).1))
         == Apply(op, EvalPart(env, op, c), Eval(env, a))
    ensures Apply(op, EvalPart(env, op, ExtractEq(op, c, a, b).0), Eval(env, ExtractEq(op, c, a, b).2))
         == Apply(op, EvalPart(env, op, c), Eval(env, b))
    decreases Size(a) + Size(b)
  {
    hide ExprEq, TriOf, StrOf, Size;
    SizeParts(a);
    SizeParts(b);
    if IsOp(op, a) {
      var (c1, l, b1) := ExtractEq(op, c, a.left, b);
      var (c2, r, b2) := ExtractEq(op, c1, a.right, b1);
      ExtractEqFactors(env, op, c, a.left, b);
      ExtractEqFactors(env, op, c1, a.right, b1);
      Exchange(op, EvalPart(env, op, c), EvalPart(env, op, c1), EvalPart(env, op, c2),
               Eval(env, a.left), Eval(env, a.right), Eval(env, l), Eval(env, r));
    } else if IsOp(op, b) {
      var (c1, a1, l) := ExtractEq(op, c, a, b.left);
      var (c2, a2, r) := ExtractEq(op, c1, a1, b.right);
      ExtractEqFactors(env, op, c, a, b.left);
      ExtractEqFactors(env, op, c1, a1, b.right);
      Exchange(op, EvalPart(env, op, c), EvalPart(env, op, c1), EvalPart(env, op, c2),
               Eval(env, b.left), Eval(env, b.right), Eval(env, l), Eval(env, r));
    } else if ExprEq(a, b) {
      ExprEqSound(env, a, b);
      OneMore(env, op, c, a);
      OneMore(env, op, c, b);
    }
  }

  lemma {:induction false} SizeParts(e: Expr)
    ensures e.Bin? ==> Size(e) == 1 + Size(e.left) + Size(e.right)
  {
  }

  lemma {:induction false} OneMore(env: Env, op: Op, c: Option<Expr>, e: Expr)
    ensures var c' := Some(if c.Some? then Bin(op, c.value, e) else e);
            Apply(op, EvalPart(env, op, c'), Eval(env, Sym(Identity(op))))
            == Apply(op, EvalPart(env, op, c), Eval(env, e))
  {
    ApplyLaws(op, EvalPart(env, op, c), Eval(env, e), TriOf(env, Identity(op)));
  }

  lemma Exchange(op: Op, c: Tristate, c1: Tristate, c2: Tristate,
                 l: Tristate, r: Tristate, l': Tristate, r': Tristate)
    requires Apply(op, c1, l') == Apply(op, c, l)
    requires Apply(op, c2, r') == Apply(op, c1, r)
    ensures Apply(op, c2, Apply(op, l', r')) == Apply(op, c, Apply(op, l, r))
  {
  }

  /** Nothing is extracted exactly when no operand of the one chain equals one of the other; both
      chains then stay as they were. */
  lemma {:induction false} ExtractNothing(op: Op, c: Option<Expr>, a: Expr, b: Expr)
    ensures ExtractEq(op, c, a, b).0.None? <==>
              c.None? && forall x <- Operands(op, a), y <- Operands(op, b) :: !ExprEq(x, y)
    ensures ExtractEq(op, c, a, b).0.None? ==> ExtractEq(op, c, a, b) == (None, a, b)
    decreases Size(a) + Size(b)
  {
    if IsOp(op, a) {
      var (c1, l, b1) := ExtractEq(op, c, a.left, b);
      ExtractNothing(op, c, a.left, b);
      ExtractNothing(op, c1, a.right, b1);
    } else if IsOp(op, b) {
      var (c1, a1, l) := ExtractEq(op, c, a, b.left);
      ExtractNothing(op, c, a, b.left);
      ExtractNothing(op, c1, a1, b.right);
    } else {
      assert a in Operands(op, a) && b in Operands(op, b);
    }
  }

  /** Each operand is the extracted part joined with what remains of it; without a common part
      both stay as they were, otherwise no y or n operand is left in them. */
  lemma ExtractFactors(env: Env, op: Op, a: Expr, b: Expr)
    ensures Eval(env, a) == Apply(op, EvalPart(env, op, Extract(op, a, b).0), Eval(env, Extract(op, a, b).1))
    ensures Eval(env, b) == Apply(op, EvalPart(env, op, Extract(op, a, b).0), Eval(env, Extract(op, a, b).2))
    ensures Extract(op, a, b).0.None? <==>
              forall x <- Operands(op, a), y <- Operands(op, b) :: !ExprEq(x, y)
    ensures Extract(op, a, b).0.None? ==> Extract(op, a, b) == (None, a, b)
    ensures Extract(op, a, b).0.Some? ==>
              !HasYnOperand(Extract(op, a, b).1) && !HasYnOperand(Extract(op, a, b).2)
  {
    var (c, a', b') := ExtractEq(op, None, a, b);
    ExtractEqFactors(env, op, None, a, b);
    ExtractNothing(op, None, a, b);
    EliminateYnExact(env, a');
    EliminateYnExact(env, b');
    EliminateYnClean(a');
    EliminateYnClean(b');
  }
}
