/** AND and OR chains: the maximal trees of one operator, and their operands. */
module Chains {
  import opened Expr

  /** The operands of the op-chain at the root of e, left to right. */
  ghost function Operands(op: Op, e: Expr): seq<Expr> {
    if IsOp(op, e) then Operands(op, e.left) + Operands(op, e.right) else [e]
  }

  /** The two op-chains have the same nodes; only their operands may differ. */
  ghost predicate SameChain(op: Op, a: Expr, b: Expr) {
    IsOp(op, a) == IsOp(op, b) &&
    (IsOp(op, a) ==> SameChain(op, a.left, b.left) && SameChain(op, a.right, b.right))
  }

  lemma {:induction false} SameChainRefl(op: Op, e: Expr)
    ensures SameChain(op, e, e)
  {
    if IsOp(op, e) {
      SameChainRefl(op, e.left);
      SameChainRefl(op, e.right);
    }
  }

  lemma {:induction false} SameChainSym(op: Op, a: Expr, b: Expr)
    requires SameChain(op, a, b)
    ensures SameChain(op, b, a)
  {
    if IsOp(op, a) {
      SameChainSym(op, a.left, b.left);
      SameChainSym(op, a.right, b.right);
    }
  }

  lemma {:induction false} SameChainTrans(op: Op, a: Expr, b: Expr, c: Expr)
    requires SameChain(op, a, b) && SameChain(op, b, c)
    ensures SameChain(op, a, c)
  {
    if IsOp(op, a) {
      SameChainTrans(op, a.left, b.left, c.left);
      SameChainTrans(op, a.right, b.right, c.right);
    }
  }

  lemma {:induction false} OperandCount(op: Op, a: Expr, b: Expr)
    requires SameChain(op, a, b)
    ensures |Operands(op, a)| == |Operands(op, b)|
  {
    if IsOp(op, a) {
      OperandCount(op, a.left, b.left);
      OperandCount(op, a.right, b.right);
    }
  }

  /** A chain is determined by its nodes and its operands. */
  lemma {:induction false} SameOperands(op: Op, a: Expr, b: Expr)
    requires SameChain(op, a, b) && Operands(op, a) == Operands(op, b)
    ensures a == b
  {
    if IsOp(op, a) {
      OperandCount(op, a.left, b.left);
      var n := |Operands(op, a.left)|;
      assert Operands(op, a.left) == Operands(op, a)[..n] == Operands(op, b)[..n];
      assert Operands(op, a.right) == Operands(op, a)[n..] == Operands(op, b)[n..];
      SameOperands(op, a.left, b.left);
      SameOperands(op, a.right, b.right);
    } else {
      assert Operands(op, a)[0] == Operands(op, b)[0];
    }
  }
}
