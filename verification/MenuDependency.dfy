/** Duplicate elimination keeps the form that expr_transform produces. */
module MenuDependency {
  import opened Expr
  import opened Chains
  import opened Paths
  import opened ConstantElimination
  import opened Transformation
  import opened Joining
  import opened Duplicates
  import opened DuplicatesLoop

  lemma {:induction false} NormalAt(op: Op, e: Expr, p: Path, x: Expr)
    requires OnChain(op, e, p) && Normal(e)
    ensures Normal(At(op, e, p))
    ensures Normal(x) ==> Normal(Replace(op, e, p, x))
  {
    if p != [] {
      NormalAt(op, Child(e, p[0]), p[1..], x);
    }
  }

  lemma JoinNormal(op: Op, a: Expr, b: Expr)
    requires Normal(a) && Normal(b) && Join(op, a, b).Some?
    ensures Normal(Join(op, a, b).value)
  {
  }

  lemma {:induction false} Dups1Normal(op: Op, e: Expr, p: Path, q: Path)
    requires IsOp(op, e) && OnChain(op, e, p) && OnChain(op, e, q) && Normal(e)
    ensures Normal(Dups1(op, e, p, q).0)
    decreases Bins(e), Nodes(op, At(op, e, p)), Nodes(op, At(op, e, q))
  {
    var a, b := At(op, e, p), At(op, e, q);
    if IsOp(op, a) {
      Split(op, e, p);
      var e1 := Dups1(op, e, p + [Left], q).0;
      Stays(op, e, e1, p + [Right]);
      Stays(op, e, e1, q);
      Dups1Normal(op, e, p + [Left], q);
      Dups1Normal(op, e1, p + [Right], q);
    } else if IsOp(op, b) {
      Split(op, e, q);
      var e1 := Dups1(op, e, p, q + [Left]).0;
      Stays(op, e, e1, q + [Right]);
      Stays(op, e, e1, p);
      Dups1Normal(op, e, p, q + [Left]);
      Dups1Normal(op, e1, p, q + [Right]);
    } else if p != q {
      NormalAt(op, e, p, e);
      NormalAt(op, e, q, e);
      AtSmaller(op, e, p);
      if a.Bin? {
        Dups1Normal(a.op, a, [], []);
      }
      var a' := if a.Bin? then Dups1(a.op, a, [], []).0 else a;
      var j := Join(op, a', b);
      if j.Some? {
        var id := Sym(Identity(op));
        JoinNormal(op, a', b);
        AtOther(op, e, p, id, q);
        NormalAt(op, e, p, id);
        NormalAt(op, Replace(op, e, p, id), q, j.value);
      } else {
        NormalAt(op, e, p, a');
      }
    }
  }

  lemma {:induction false} Dups2Normal(op: Op, e: Expr, p: Path, q: Path)
    requires IsOp(op, e) && OnChain(op, e, p) && OnChain(op, e, q) && Normal(e)
    ensures Normal(Dups2(op, e, p, q).0)
    decreases Bins(e), Nodes(op, At(op, e, p)), Nodes(op, At(op, e, q))
  {
    var a, b := At(op, e, p), At(op, e, q);
    if IsOp(op, a) {
      Split(op, e, p);
      var e1 := Dups2(op, e, p + [Left], q).0;
      Stays(op, e, e1, p + [Right]);
      Stays(op, e, e1, q);
      Dups2Normal(op, e, p + [Left], q);
      Dups2Normal(op, e1, p + [Right], q);
    } else if IsOp(op, b) {
      Split(op, e, q);
      var e1 := Dups2(op, e, p, q + [Left]).0;
      Stays(op, e, e1, q + [Right]);
      Stays(op, e, e1, p);
      var e2 := Dups2(op, e1, p, q + [Right]).0;
      SameChainTrans(op, e, e1, e2);
      Stays(op, e, e2, p);
      Stays(op, e, e2, q);
      Dups2Normal(op, e, p, q + [Left]);
      Dups2Normal(op, e1, p, q + [Right]);
      CollapseNormal(op, e2, p, q);
    } else if p != q {
      CollapseNormal(op, e, p, q);
    }
  }

  lemma {:induction false} CollapseNormal(op: Op, e: Expr, p: Path, q: Path)
    requires IsOp(op, e) && OnChain(op, e, p) && OnChain(op, e, q) && !IsOp(op, At(op, e, p)) && Normal(e)
    ensures Normal(Collapse(op, e, p, q).0)
    decreases Bins(e), 0, 0, 0
  {
    var a := At(op, e, p);
    if a.Bin? {
      AtSmaller(op, e, p);
      NormalAt(op, e, p, Sym(Absorbing(op)));
      Dups2Normal(a.op, a, [], []);
      NormalAt(op, e, p, Dups2(a.op, a, [], []).0);
    }
  }

  lemma {:induction false} EliminateYnNormal(e: Expr)
    requires Normal(e)
    ensures Normal(EliminateYn(e))
  {
    if e.Bin? {
      EliminateYnNormal(e.left);
      EliminateYnNormal(e.right);
    }
  }

  /** expr_eliminate_dups keeps the normal form of expr_transform. */
  lemma {:induction false} WithoutDupsNormal(e: Expr)
    requires Normal(e)
    ensures Normal(WithoutDups(e))
    decreases Bins(e)
  {
    if e.Bin? {
      var e1 := Dups1(e.op, e, [], []).0;
      Dups1Normal(e.op, e, [], []);
      Dups2Normal(e.op, e1, [], []);
      RoundProgress(e);
      var (e2, n) := Round(e);
      if n != 0 {
        EliminateYnNormal(e2);
        WithoutDupsNormal(EliminateYn(e2));
      }
    }
  }
}
