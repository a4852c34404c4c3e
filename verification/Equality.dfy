/** expr_eq and expr_eliminate_eq: equality modulo reordering, by cancelling common operands. */
module Equality {
  import opened Options
  import opened Expr
  import opened ConstantElimination

  /** expr_eq. The two AND/OR operands are copies, so nothing is shared between them. */
  function ExprEq(a: Expr, b: Expr): bool
    decreases Size(a) + Size(b), 1
  {
    match (a, b)
    case (Equal(l, r), Equal(l', r')) => l == l' && r == r'
    case (Unequal(l, r), Unequal(l', r')) => l == l' && r == r'
    case (Sym(s), Sym(s')) => s == s'
    case (Not(x), Not(x')) => ExprEq(x, x')
    case (Bin(op, _, _), Bin(op', _, _)) =>
      op == op' &&
      var (a', b') := CancelEq(op, a, b);
      var (a'', b'') := (EliminateYn(a'), EliminateYn(b'));
      a''.Sym? && a'' == b''
    case _ => false
  }

  /** __expr_eliminate_eq: every pair of equal operands of the two op-chains is replaced by the
      identity of op. */
  function CancelEq(op: Op, a: Expr, b: Expr): (r: (Expr, Expr))
    ensures Size(r.0) <= Size(a) && Size(r.1) <= Size(b)
    decreases Size(a) + Size(b), if IsOp(op, a) || IsOp(op, b) then 0 else 2
  {
    if IsOp(op, a) then
      var (l, b1) := CancelEq(op, a.left, b);
      var (r, b2) := CancelEq(op, a.right, b1);
      (Bin(op, l, r), b2)
    else if IsOp(op, b) then
      var (a1, l) := CancelEq(op, a, b.left);
      var (a2, r) := CancelEq(op, a1, b.right);
      (a2, Bin(op, l, r))
    else if a.Sym? && a == b && HasYesNoFlag(a.sym) then (a, b)
    else if ExprEq(a, b) then (Sym(Identity(op)), Sym(Identity(op)))
    else (a, b)
  }

  /** expr_eliminate_eq. For roots of one kind other than AND and OR the walk takes a symbol, or a
      missing second operand, for an expression: it has no result. */
  function EliminateEq(a: Expr, b: Expr): Option<(Expr, Expr)> {
    if !SameKind(a, b) then Some((a, b))
    else if a.Bin? then
      var (a', b') := CancelEq(a.op, a, b);
      Some((EliminateYn(a'), EliminateYn(b')))
    else None
  }

  predicate SameKind(a: Expr, b: Expr) {
    match (a, b)
    case (Sym(_), Sym(_)) => true
    case (Not(_), Not(_)) => true
    case (Equal(_, _), Equal(_, _)) => true
    case (Unequal(_, _), Unequal(_, _)) => true
    case (Bin(op, _, _), Bin(op', _, _)) => op == op'
    case _ => false
  }

  /** The part that cancelling takes out of both chains. */
  ghost function CommonPart(op: Op, a: Expr, b: Expr): Expr
    decreases Size(a) + Size(b)
  {
    if IsOp(op, a) then
      Bin(op, CommonPart(op, a.left, b), CommonPart(op, a.right, CancelEq(op, a.left, b).1))
    else if IsOp(op, b) then
      Bin(op, CommonPart(op, a, b.left), CommonPart(op, CancelEq(op, a, b.left).0, b.right))
    else if !(a.Sym? && a == b && HasYesNoFlag(a.sym)) && ExprEq(a, b) then a
    else Sym(Identity(op))
  }

  /** Equal expressions have the same value, in every environment. */
  lemma {:induction false} ExprEqSound(env: Env, a: Expr, b: Expr)
    requires ExprEq(a, b)
    ensures Eval(env, a) == Eval(env, b)
    decreases Size(a) + Size(b), 1
  {
    if a.Not? {
      ExprEqSound(env, a.arg, b.arg);
    } else if a.Bin? {
      var (a', b') := CancelEq(a.op, a, b);
      CancelEqFactors(env, a.op, a, b);
      EliminateYnExact(env, a');
      EliminateYnExact(env, b');
    }
  }

  /** Both chains are the common part joined with what cancelling leaves of them. */
  lemma {:induction false} CancelEqFactors(env: Env, op: Op, a: Expr, b: Expr)
    ensures Eval(env, a) == Apply(op, Eval(env, CommonPart(op, a, b)), Eval(env, CancelEq(op, a, b).0))
    ensures Eval(env, b) == Apply(op, Eval(env, CommonPart(op, a, b)), Eval(env, CancelEq(op, a, b).1))
    decreases Size(a) + Size(b), if IsOp(op, a) || IsOp(op, b) then 0 else 2
  {
    if IsOp(op, a) {
      var (l, b1) := CancelEq(op, a.left, b);
      var (r, b2) := CancelEq(op, a.right, b1);
      var c1, c2 := CommonPart(op, a.left, b), CommonPart(op, a.right, b1);
      CancelEqFactors(env, op, a.left, b);
      CancelEqFactors(env, op, a.right, b1);
      Regroup(op, Eval(env, c1), Eval(env, c2), Eval(env, l), Eval(env, r), Eval(env, b2));
    } else if IsOp(op, b) {
      var (a1, l) := CancelEq(op, a, b.left);
      var (a2, r) := CancelEq(op, a1, b.right);
      var c1, c2 := CommonPart(op, a, b.left), CommonPart(op, a1, b.right);
      CancelEqFactors(env, op, a, b.left);
      CancelEqFactors(env, op, a1, b.right);
      Regroup(op, Eval(env, c1), Eval(env, c2), Eval(env, l), Eval(env, r), Eval(env, a2));
    } else if !(a.Sym? && a == b && HasYesNoFlag(a.sym)) && ExprEq(a, b) {
      ExprEqSound(env, a, b);
    }
  }

  lemma Regroup(op: Op, c1: Tristate, c2: Tristate, l: Tristate, r: Tristate, rest: Tristate)
    ensures Apply(op, Apply(op, c1, l), Apply(op, c2, r)) == Apply(op, Apply(op, c1, c2), Apply(op, l, r))
    ensures Apply(op, c1, Apply(op, c2, rest)) == Apply(op, Apply(op, c1, c2), rest)
  {
  }

  /** There is a result exactly if the roots differ in kind or are AND or OR nodes. What is left of
      the two sides, joined with one common part, is what they were, and no y or n operand stays
      behind; roots of different kinds are left alone. */
  lemma {:induction false} EliminateEqFactors(env: Env, a: Expr, b: Expr)
    ensures EliminateEq(a, b).Some? <==> (SameKind(a, b) ==> a.Bin?)
    ensures !SameKind(a, b) ==> EliminateEq(a, b) == Some((a, b))
    ensures a.Bin? && SameKind(a, b) ==>
              var (a', b') := EliminateEq(a, b).value;
              && Eval(env, a) == Apply(a.op, Eval(env, CommonPart(a.op, a, b)), Eval(env, a'))
              && Eval(env, b) == Apply(a.op, Eval(env, CommonPart(a.op, a, b)), Eval(env, b'))
              && !HasYnOperand(a') && !HasYnOperand(b')
  {
    if a.Bin? && SameKind(a, b) {
      var (a', b') := CancelEq(a.op, a, b);
      CancelEqFactors(env, a.op, a, b);
      EliminateYnExact(env, a');
      EliminateYnExact(env, b');
      EliminateYnClean(a');
      EliminateYnClean(b');
    }
  }

  /** If nothing but y is left of b, then a is never above b. */
  lemma {:induction false} EliminateEqImplies(env: Env, a: Expr, b: Expr)
    requires EliminateEq(a, b).Some? && EliminateEq(a, b).value.1 == Sym(Yes)
    ensures Eval(env, a) <= Eval(env, b)
  {
    EliminateEqFactors(env, a, b);
    assert Eval(env, Sym(Yes)) == YES;
  }
}
