/** expr_eliminate_yn: removal of constant operands. */
module ConstantElimination {
  import opened Expr

  /** An AND or OR of two operands, unless one of them is a constant. */
  function DropYn(op: Op, l: Expr, r: Expr): Expr {
    if l == Sym(Absorbing(op)) then l
    else if l == Sym(Identity(op)) then r
    else if r == Sym(Absorbing(op)) then r
    else if r == Sym(Identity(op)) then l
    else Bin(op, l, r)
  }

  function EliminateYn(e: Expr): Expr {
    match e
    case Bin(op, l, r) => DropYn(op, EliminateYn(l), EliminateYn(r))
    case _ => e
  }

  /** Some AND or OR that is not below a NOT has y or n as an operand. */
  predicate HasYnOperand(e: Expr) {
    e.Bin? && (IsYn(e.left) || IsYn(e.right) || HasYnOperand(e.left) || HasYnOperand(e.right))
  }

  lemma {:induction false} EliminateYnExact(env: Env, e: Expr)
    ensures Eval(env, EliminateYn(e)) == Eval(env, e)
  {
    if e.Bin? {
      EliminateYnExact(env, e.left);
      EliminateYnExact(env, e.right);
    }
  }

  lemma {:induction false} EliminateYnClean(e: Expr)
    ensures !HasYnOperand(EliminateYn(e))
  {
    if e.Bin? {
      EliminateYnClean(e.left);
      EliminateYnClean(e.right);
    }
  }

  /** The number of AND and OR nodes drops exactly when there was something to remove;
      otherwise the expression is left as it is. */
  lemma {:induction false} EliminateYnShrinks(e: Expr)
    ensures Bins(EliminateYn(e)) <= Bins(e)
    ensures HasYnOperand(e) <==> Bins(EliminateYn(e)) < Bins(e)
    ensures !HasYnOperand(e) <==> EliminateYn(e) == e
    ensures Size(EliminateYn(e)) <= Size(e)
  {
    if e.Bin? {
      EliminateYnShrinks(e.left);
      EliminateYnShrinks(e.right);
    }
  }
}
