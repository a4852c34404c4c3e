/** What the two passes of expr_eliminate_dups keep. */
module DuplicatesProofs {
  import opened Expr
  import opened Chains
  import opened Paths
  import opened ConstantElimination
  import opened Extraction
  import opened Transformation
  import opened Joining
  import opened Duplicates

  /** The first pass keeps all three values exactly. */
  lemma {:induction false} Dups1Exact(env: Env, op: Op, e: Expr, p: Path, q: Path)
    requires IsOp(op, e) && OnChain(op, e, p) && OnChain(op, e, q)
    ensures Eval(env, Dups1(op, e, p, q).0) == Eval(env, e)
    decreases Bins(e), Nodes(op, At(op, e, p)), Nodes(op, At(op, e, q))
  {
    var a, b := At(op, e, p), At(op, e, q);
    if IsOp(op, a) {
      Split(op, e, p);
      var e1 := Dups1(op, e, p + [Left], q).0;
      Stays(op, e, e1, p + [Right]);
      Stays(op, e, e1, q);
      Dups1Exact(env, op, e, p + [Left], q);
      Dups1Exact(env, op, e1, p + [Right], q);
    } else if IsOp(op, b) {
      Split(op, e, q);
      var e1 := Dups1(op, e, p, q + [Left]).0;
      Stays(op, e, e1, q + [Right]);
      Stays(op, e, e1, p);
      Dups1Exact(env, op, e, p, q + [Left]);
      Dups1Exact(env, op, e1, p, q + [Right]);
    } else if p != q {
      Dups1Operands(env, op, e, p, q);
    }
  }

  lemma {:induction false} Dups1Operands(env: Env, op: Op, e: Expr, p: Path, q: Path)
    requires IsOp(op, e) && OnChain(op, e, p) && OnChain(op, e, q) && p != q
    requires !IsOp(op, At(op, e, p)) && !IsOp(op, At(op, e, q))
    ensures Eval(env, Dups1(op, e, p, q).0) == Eval(env, e)
    decreases Bins(e), 0, 0, 0
  {
    var a, b := At(op, e, p), At(op, e, q);
    AtSmaller(op, e, p);
    if a.Bin? {
      Dups1Exact(env, a.op, a, [], []);
    }
    var a' := if a.Bin? then Dups1(a.op, a, [], []).0 else a;
    var j := Join(op, a', b);
    if j.Some? {
      var id := Sym(Identity(op));
      JoinExact(env, op, a', b);
      AtOther(op, e, p, id, q);
      ReplaceTwo(env, op, e, p, id, q, j.value);
    } else {
      RestJoins(env, op, e, p, a');
    }
  }

  lemma ApplySettles(op: Op, r: Tristate, a: Tristate, b: Tristate)
    requires Settles(a, b)
    ensures Settles(Apply(op, r, a), Apply(op, r, b))
  {
  }

  /** The second pass keeps n and y; only an m may become definite. */
  lemma {:induction false} Dups2Settles(env: Env, op: Op, e: Expr, p: Path, q: Path)
    requires IsOp(op, e) && OnChain(op, e, p) && OnChain(op, e, q)
    ensures Settles(Eval(env, e), Eval(env, Dups2(op, e, p, q).0))
    decreases Bins(e), Nodes(op, At(op, e, p)), Nodes(op, At(op, e, q))
  {
    var a, b := At(op, e, p), At(op, e, q);
    if IsOp(op, a) {
      Split(op, e, p);
      var e1 := Dups2(op, e, p + [Left], q).0;
      Stays(op, e, e1, p + [Right]);
      Stays(op, e, e1, q);
      Dups2Settles(env, op, e, p + [Left], q);
      Dups2Settles(env, op, e1, p + [Right], q);
    } else if IsOp(op, b) {
      Split(op, e, q);
      var e1 := Dups2(op, e, p, q + [Left]).0;
      Stays(op, e, e1, q + [Right]);
      Stays(op, e, e1, p);
      var e2 := Dups2(op, e1, p, q + [Right]).0;
      SameChainTrans(op, e, e1, e2);
      Stays(op, e, e2, p);
      Stays(op, e, e2, q);
      Dups2Settles(env, op, e, p, q + [Left]);
      Dups2Settles(env, op, e1, p, q + [Right]);
      CollapseSettles(env, op, e2, p, q);
    } else if p != q {
      CollapseSettles(env, op, e, p, q);
    }
  }

  /** A collapse writes the deciding constant over a chain that is at most (And) or at least (Or)
      m already, so it changes the value exactly when that value is m. */
  lemma {:induction false} CollapseSettles(env: Env, op: Op, e: Expr, p: Path, q: Path)
    requires IsOp(op, e) && OnChain(op, e, p) && OnChain(op, e, q) && !IsOp(op, At(op, e, p))
    ensures Settles(Eval(env, e), Eval(env, Collapse(op, e, p, q).0))
    decreases Bins(e), 0, 0, 0
  {
    var a := At(op, e, p);
    if a.Bin? {
      AtSmaller(op, e, p);
      var a' := Dups2(a.op, a, [], []).0;
      Dups2Settles(env, a.op, a, [], []);
      ReplaceSameChain(op, e, p, a');
      var e1 := Replace(op, e, p, a');
      SameChainAt(op, e, e1, q);
      RestJoins(env, op, e, p, a');
      ApplySettles(op, Rest(env, op, e, p), Eval(env, a), Eval(env, a'));
      var negated := Transform(Not(a'));
      var (c, rest, _) := Extract(op, negated, At(op, e1, q));
      if rest == Sym(Identity(op)) {
        AtSame(op, e, p, a');
        CollapseDecides(env, op, e1, p, q, negated);
        TransformExact(env, Not(a'));
        RestJoins(env, op, e, p, Sym(Absorbing(op)));
      }
    }
  }

  /** A chain that contains x and all operands of y is bounded by both. */
  lemma {:induction false} CollapseDecides(env: Env, op: Op, e: Expr, p: Path, q: Path, y: Expr)
    requires OnChain(op, e, p) && OnChain(op, e, q)
    requires Extract(op, y, At(op, e, q)).1 == Sym(Identity(op))
    ensures Apply(op, Eval(env, e), Eval(env, At(op, e, p))) == Eval(env, e)
    ensures Apply(op, Eval(env, e), Eval(env, y)) == Eval(env, e)
  {
    RestJoins(env, op, e, p, e);
    RestJoins(env, op, e, q, e);
    ExtractFactors(env, op, y, At(op, e, q));
  }

  /** Where a collapse fires, which its count shows, it keeps the value of the chain it found
      after rewriting its operand in exactly the environments in which that chain is not m. */
  lemma {:induction false} CollapseExactIff(env: Env, op: Op, e: Expr, p: Path, q: Path)
    requires IsOp(op, e) && OnChain(op, e, p) && OnChain(op, e, q) && At(op, e, p).Bin? && At(op, e, p).op != op
    ensures var (a', n) := Dups2(At(op, e, p).op, At(op, e, p), [], []);
            var e1 := Replace(op, e, p, a');
            Collapse(op, e, p, q).1 > n ==>
              (Eval(env, Collapse(op, e, p, q).0) == Eval(env, e1) <==> Eval(env, e1) != MOD)
  {
    var a := At(op, e, p);
    AtSmaller(op, e, p);
    var (a', n) := Dups2(a.op, a, [], []);
    ReplaceSameChain(op, e, p, a');
    var e1 := Replace(op, e, p, a');
    SameChainAt(op, e, e1, q);
    var negated := Transform(Not(a'));
    if Extract(op, negated, At(op, e1, q)).1 == Sym(Identity(op)) {
      AtSame(op, e, p, a');
      CollapseDecides(env, op, e1, p, q, negated);
      TransformExact(env, Not(a'));
      RestJoins(env, op, e, p, Sym(Absorbing(op)));
    }
  }

  /** A pass that raises trans_count leaves a y or n operand behind; one that does not changes
      nothing; and no pass ever clears the last such operand. */
  ghost predicate Marks(e: Expr, r: (Expr, nat)) {
    (r.1 == 0 ==> r.0 == e) && (r.1 > 0 || HasYnOperand(e) ==> HasYnOperand(r.0))
  }

  lemma {:induction false} Dups1Marks(op: Op, e: Expr, p: Path, q: Path)
    requires IsOp(op, e) && OnChain(op, e, p) && OnChain(op, e, q)
    ensures Marks(e, Dups1(op, e, p, q))
    decreases Bins(e), Nodes(op, At(op, e, p)), Nodes(op, At(op, e, q))
  {
    var a, b := At(op, e, p), At(op, e, q);
    if IsOp(op, a) {
      Split(op, e, p);
      var e1 := Dups1(op, e, p + [Left], q).0;
      Stays(op, e, e1, p + [Right]);
      Stays(op, e, e1, q);
      Dups1Marks(op, e, p + [Left], q);
      Dups1Marks(op, e1, p + [Right], q);
    } else if IsOp(op, b) {
      Split(op, e, q);
      var e1 := Dups1(op, e, p, q + [Left]).0;
      Stays(op, e, e1, q + [Right]);
      Stays(op, e, e1, p);
      Dups1Marks(op, e, p, q + [Left]);
      Dups1Marks(op, e1, p, q + [Right]);
    } else if p != q {
      Dups1OperandsMark(op, e, p, q);
    }
  }

  lemma {:induction false} Dups1OperandsMark(op: Op, e: Expr, p: Path, q: Path)
    requires IsOp(op, e) && OnChain(op, e, p) && OnChain(op, e, q) && p != q
    requires !IsOp(op, At(op, e, p)) && !IsOp(op, At(op, e, q))
    ensures Marks(e, Dups1(op, e, p, q))
    decreases Bins(e), 0, 0, 0
  {
    var a, b := At(op, e, p), At(op, e, q);
    AtSmaller(op, e, p);
    if a.Bin? {
      Dups1Marks(a.op, a, [], []);
    }
    var (a', n) := if a.Bin? then Dups1(a.op, a, [], []) else (a, 0);
    var j := Join(op, a', b);
    if j.Some? {
      // The identity is written at p, and stays there when q is written.
      var id := Sym(Identity(op));
      var e1 := Replace(op, e, p, id);
      AtOther(op, e, p, id, q);
      AtSame(op, e, p, id);
      JoinKeepsYn(op, e1, p, q, j.value);
    } else {
      AtSame(op, e, p, a');
      if HasYnOperand(a') {
        ReplaceYnOperand(op, e, p, a');
      } else if HasYnOperand(e) {
        KeepYnOperand(op, e, p, a');
      }
    }
  }

  /** An operand that is y or n stays an operand when another place is written. */
  lemma {:induction false} JoinKeepsYn(op: Op, e: Expr, p: Path, q: Path, x: Expr)
    requires OnChain(op, e, p) && OnChain(op, e, q) && p != q && IsYn(At(op, e, p))
    requires !IsOp(op, At(op, e, q))
    ensures HasYnOperand(Replace(op, e, q, x))
  {
    if p[0] == q[0] {
      assert p == [p[0]] + p[1..] && q == [q[0]] + q[1..];
      JoinKeepsYn(op, Child(e, p[0]), p[1..], q[1..], x);
    } else if p[1..] != [] {
      YnBelow(op, Child(e, p[0]), p[1..]);
    } else {
      assert At(op, Child(e, p[0]), []) == Child(e, p[0]);
    }
  }

  lemma {:induction false} YnBelow(op: Op, e: Expr, p: Path)
    requires OnChain(op, e, p) && p != [] && IsYn(At(op, e, p))
    ensures HasYnOperand(e)
  {
    if p[1..] != [] {
      YnBelow(op, Child(e, p[0]), p[1..]);
    } else {
      assert At(op, Child(e, p[0]), []) == Child(e, p[0]);
    }
  }

  lemma {:induction false} Dups2Marks(op: Op, e: Expr, p: Path, q: Path)
    requires IsOp(op, e) && OnChain(op, e, p) && OnChain(op, e, q)
    ensures Marks(e, Dups2(op, e, p, q))
    decreases Bins(e), Nodes(op, At(op, e, p)), Nodes(op, At(op, e, q))
  {
    var a, b := At(op, e, p), At(op, e, q);
    if IsOp(op, a) {
      Split(op, e, p);
      var e1 := Dups2(op, e, p + [Left], q).0;
      Stays(op, e, e1, p + [Right]);
      Stays(op, e, e1, q);
      Dups2Marks(op, e, p + [Left], q);
      Dups2Marks(op, e1, p + [Right], q);
    } else if IsOp(op, b) {
      Split(op, e, q);
      var e1 := Dups2(op, e, p, q + [Left]).0;
      Stays(op, e, e1, q + [Right]);
      Stays(op, e, e1, p);
      var e2 := Dups2(op, e1, p, q + [Right]).0;
      SameChainTrans(op, e, e1, e2);
      Stays(op, e, e2, p);
      Stays(op, e, e2, q);
      Dups2Marks(op, e, p, q + [Left]);
      Dups2Marks(op, e1, p, q + [Right]);
      CollapseMarks(op, e2, p, q);
    } else if p != q {
      CollapseMarks(op, e, p, q);
    }
  }

  lemma {:induction false} CollapseMarks(op: Op, e: Expr, p: Path, q: Path)
    requires IsOp(op, e) && OnChain(op, e, p) && OnChain(op, e, q) && !IsOp(op, At(op, e, p))
    ensures Marks(e, Collapse(op, e, p, q))
    decreases Bins(e), 0, 0, 0
  {
    var a := At(op, e, p);
    if a.Bin? {
      AtSmaller(op, e, p);
      Dups2Marks(a.op, a, [], []);
      var (a', n) := Dups2(a.op, a, [], []);
      AtSame(op, e, p, a');
      if Collapse(op, e, p, q).1 == n + 1 {
        ReplaceYnOperand(op, e, p, Sym(Absorbing(op)));
      } else if HasYnOperand(a') {
        ReplaceYnOperand(op, e, p, a');
      } else if HasYnOperand(e) {
        KeepYnOperand(op, e, p, a');
      }
    }
  }
}
