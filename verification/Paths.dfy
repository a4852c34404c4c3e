/** Places in an expression tree: what a pointer to an operand slot denotes. */
module Paths {
  import opened Expr
  import opened Chains
  import opened ConstantElimination

  datatype Side = Left | Right

  type Path = seq<Side>

  function Child(e: Expr, s: Side): Expr
    requires e.Bin?
  {
    if s == Left then e.left else e.right
  }

  /** p leads to a place of the op-chain at the root of e: every node above it is an op node. */
  predicate OnChain(op: Op, e: Expr, p: Path) {
    p == [] || (IsOp(op, e) && OnChain(op, Child(e, p[0]), p[1..]))
  }

  function At(op: Op, e: Expr, p: Path): Expr
    requires OnChain(op, e, p)
  {
    if p == [] then e else At(op, Child(e, p[0]), p[1..])
  }

  function Replace(op: Op, e: Expr, p: Path, x: Expr): Expr
    requires OnChain(op, e, p)
  {
    if p == [] then x
    else if p[0] == Left then Bin(op, Replace(op, e.left, p[1..], x), e.right)
    else Bin(op, e.left, Replace(op, e.right, p[1..], x))
  }

  lemma {:induction false} AtChild(op: Op, e: Expr, p: Path, s: Side)
    requires OnChain(op, e, p) && IsOp(op, At(op, e, p))
    ensures OnChain(op, e, p + [s]) && At(op, e, p + [s]) == Child(At(op, e, p), s)
  {
    if p == [] {
      assert (p + [s])[1..] == [];
    } else {
      assert (p + [s])[1..] == p[1..] + [s];
      AtChild(op, Child(e, p[0]), p[1..], s);
    }
  }

  lemma {:induction false} AtSmaller(op: Op, e: Expr, p: Path)
    requires OnChain(op, e, p)
    ensures Bins(At(op, e, p)) <= Bins(e)
    ensures p != [] ==> Bins(At(op, e, p)) < Bins(e)
  {
    if p != [] {
      AtSmaller(op, Child(e, p[0]), p[1..]);
    }
  }

  lemma {:induction false} SameChainAt(op: Op, a: Expr, b: Expr, p: Path)
    requires SameChain(op, a, b) && OnChain(op, a, p)
    ensures OnChain(op, b, p) && SameChain(op, At(op, a, p), At(op, b, p))
  {
    if p != [] {
      SameChainAt(op, Child(a, p[0]), Child(b, p[0]), p[1..]);
    }
  }

  /** Writing an operand over an operand keeps the chain. */
  lemma {:induction false} ReplaceSameChain(op: Op, e: Expr, p: Path, x: Expr)
    requires OnChain(op, e, p) && SameChain(op, At(op, e, p), x)
    ensures SameChain(op, e, Replace(op, e, p, x))
    ensures Bins(Replace(op, e, p, x)) == Bins(e) - Bins(At(op, e, p)) + Bins(x)
  {
    if p != [] {
      SameChainRefl(op, e.left);
      SameChainRefl(op, e.right);
      ReplaceSameChain(op, Child(e, p[0]), p[1..], x);
    }
  }

  /** Reading back at a place other than the one written. */
  lemma {:induction false} AtOther(op: Op, e: Expr, p: Path, x: Expr, q: Path)
    requires OnChain(op, e, p) && OnChain(op, e, q) && p != q
    requires !IsOp(op, At(op, e, p)) && !IsOp(op, At(op, e, q))
    ensures OnChain(op, Replace(op, e, p, x), q)
    ensures At(op, Replace(op, e, p, x), q) == At(op, e, q)
  {
    if p == [] || q == [] {
    } else if p[0] == q[0] {
      assert p == [p[0]] + p[1..] && q == [q[0]] + q[1..];
      AtOther(op, Child(e, p[0]), p[1..], x, q[1..]);
    }
  }

  lemma {:induction false} AtSame(op: Op, e: Expr, p: Path, x: Expr)
    requires OnChain(op, e, p)
    ensures OnChain(op, Replace(op, e, p, x), p) && At(op, Replace(op, e, p, x), p) == x
    ensures Replace(op, e, p, At(op, e, p)) == e
  {
    if p != [] {
      AtSame(op, Child(e, p[0]), p[1..], x);
    }
  }

  /** What the chain is worth apart from the operand at p. */
  ghost function Rest(env: Env, op: Op, e: Expr, p: Path): Tristate
    requires OnChain(op, e, p)
  {
    if p == [] then TriOf(env, Identity(op))
    else if p[0] == Left then Apply(op, Rest(env, op, e.left, p[1..]), Eval(env, e.right))
    else Apply(op, Eval(env, e.left), Rest(env, op, e.right, p[1..]))
  }

  lemma {:induction false} RestJoins(env: Env, op: Op, e: Expr, p: Path, x: Expr)
    requires OnChain(op, e, p)
    ensures Eval(env, e) == Apply(op, Rest(env, op, e, p), Eval(env, At(op, e, p)))
    ensures Eval(env, Replace(op, e, p, x)) == Apply(op, Rest(env, op, e, p), Eval(env, x))
  {
    if p != [] {
      var c, other := Child(e, p[0]), Child(e, if p[0] == Left then Right else Left);
      RestJoins(env, op, c, p[1..], x);
      ApplyLaws(op, Eval(env, other), Rest(env, op, c, p[1..]), Eval(env, At(op, e, p)));
      ApplyLaws(op, Eval(env, other), Rest(env, op, c, p[1..]), Eval(env, x));
    }
  }

  /** Two operands may be exchanged for any two that join to the same value. */
  lemma {:induction false} ReplaceTwo(env: Env, op: Op, e: Expr, p: Path, x: Expr, q: Path, y: Expr)
    requires OnChain(op, e, p) && OnChain(op, e, q) && p != q
    requires !IsOp(op, At(op, e, p)) && !IsOp(op, At(op, e, q))
    requires OnChain(op, Replace(op, e, p, x), q)
    requires Apply(op, Eval(env, x), Eval(env, y))
          == Apply(op, Eval(env, At(op, e, p)), Eval(env, At(op, e, q)))
    ensures Eval(env, Replace(op, Replace(op, e, p, x), q, y)) == Eval(env, e)
  {
    var e' := Replace(op, e, p, x);
    AtOther(op, e, p, x, q);
    if p[0] == q[0] {
      assert p == [p[0]] + p[1..] && q == [q[0]] + q[1..];
      ReplaceTwo(env, op, Child(e, p[0]), p[1..], x, q[1..], y);
    } else {
      RestJoins(env, op, Child(e, p[0]), p[1..], x);
      RestJoins(env, op, Child(e, q[0]), q[1..], y);
      RegroupTwo(op, Rest(env, op, Child(e, p[0]), p[1..]), Rest(env, op, Child(e, q[0]), q[1..]),
                 Eval(env, At(op, e, p)), Eval(env, At(op, e, q)), Eval(env, x), Eval(env, y));
    }
  }

  lemma RegroupTwo(op: Op, r: Tristate, s: Tristate, a: Tristate, b: Tristate, x: Tristate, y: Tristate)
    requires Apply(op, x, y) == Apply(op, a, b)
    ensures Apply(op, Apply(op, r, x), Apply(op, s, y)) == Apply(op, Apply(op, r, a), Apply(op, s, b))
    ensures Apply(op, Apply(op, s, y), Apply(op, r, x)) == Apply(op, Apply(op, s, b), Apply(op, r, a))
  {
  }

  lemma {:induction false} ReplaceYnOperand(op: Op, e: Expr, p: Path, x: Expr)
    requires OnChain(op, e, p)
    requires (p != [] && IsYn(x)) || HasYnOperand(x)
    ensures HasYnOperand(Replace(op, e, p, x))
  {
    if p != [] {
      if p[1..] == [] {
        assert Replace(op, Child(e, p[0]), p[1..], x) == x;
      } else {
        ReplaceYnOperand(op, Child(e, p[0]), p[1..], x);
      }
    }
  }

  /** A y or n operand elsewhere stays when a place is rewritten without losing its own. */
  lemma {:induction false} KeepYnOperand(op: Op, e: Expr, p: Path, x: Expr)
    requires OnChain(op, e, p) && HasYnOperand(e)
    requires HasYnOperand(At(op, e, p)) ==> HasYnOperand(x)
    requires IsYn(At(op, e, p)) ==> IsYn(x)
    ensures HasYnOperand(Replace(op, e, p, x))
  {
    if p != [] {
      var c := Child(e, p[0]);
      if p[1..] == [] {
        assert At(op, c, p[1..]) == c && Replace(op, c, p[1..], x) == x;
      } else {
        assert !IsYn(c);
        if HasYnOperand(c) {
          KeepYnOperand(op, c, p[1..], x);
        }
      }
    }
  }
}
