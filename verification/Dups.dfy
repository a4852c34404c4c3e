/** expr_eliminate_dups: merging the operands of a chain until nothing is left to merge. */
module Duplicates {
  import opened Expr
  import opened Chains
  import opened Paths
  import opened Extraction
  import opened Transformation
  import opened Joining

  /** Number of nodes of the op-chain itself. */
  ghost function Nodes(op: Op, e: Expr): nat {
    if IsOp(op, e) then 1 + Nodes(op, e.left) + Nodes(op, e.right) else 0
  }

  lemma {:induction false} SameNodes(op: Op, a: Expr, b: Expr)
    requires SameChain(op, a, b)
    ensures Nodes(op, a) == Nodes(op, b)
  {
    if IsOp(op, a) {
      SameNodes(op, a.left, b.left);
      SameNodes(op, a.right, b.right);
    }
  }

  /** The two halves of an op node on the chain. */
  lemma Split(op: Op, e: Expr, p: Path)
    requires OnChain(op, e, p) && IsOp(op, At(op, e, p))
    ensures OnChain(op, e, p + [Left]) && At(op, e, p + [Left]) == At(op, e, p).left
    ensures OnChain(op, e, p + [Right]) && At(op, e, p + [Right]) == At(op, e, p).right
    ensures Nodes(op, At(op, e, p + [Left])) < Nodes(op, At(op, e, p))
    ensures Nodes(op, At(op, e, p + [Right])) < Nodes(op, At(op, e, p))
  {
    AtChild(op, e, p, Left);
    AtChild(op, e, p, Right);
  }

  /** Places survive a rewriting of the operands. */
  lemma Stays(op: Op, e: Expr, e': Expr, p: Path)
    requires SameChain(op, e, e') && OnChain(op, e, p)
    ensures OnChain(op, e', p) && IsOp(op, At(op, e', p)) == IsOp(op, At(op, e, p))
    ensures Nodes(op, At(op, e', p)) == Nodes(op, At(op, e, p))
  {
    SameChainAt(op, e, e', p);
    SameNodes(op, At(op, e, p), At(op, e', p));
  }

  /** expr_eliminate_dups1 on two places of one chain: the expression it leaves, and how often it
      raised trans_count. The place of the second operand receives the merged operand, the place
      of the first one the identity. */
  function Dups1(op: Op, e: Expr, p: Path, q: Path): (r: (Expr, nat))
    requires IsOp(op, e) && OnChain(op, e, p) && OnChain(op, e, q)
    ensures SameChain(op, e, r.0) && Bins(r.0) <= Bins(e)
    decreases Bins(e), Nodes(op, At(op, e, p)), Nodes(op, At(op, e, q))
  {
    SameChainRefl(op, e);
    var a, b := At(op, e, p), At(op, e, q);
    if IsOp(op, a) then
      Split(op, e, p);
      var (e1, n1) := Dups1(op, e, p + [Left], q);
      Stays(op, e, e1, p + [Right]);
      Stays(op, e, e1, q);
      var (e2, n2) := Dups1(op, e1, p + [Right], q);
      SameChainTrans(op, e, e1, e2);
      (e2, n1 + n2)
    else if IsOp(op, b) then
      Split(op, e, q);
      var (e1, n1) := Dups1(op, e, p, q + [Left]);
      Stays(op, e, e1, q + [Right]);
      Stays(op, e, e1, p);
      var (e2, n2) := Dups1(op, e1, p, q + [Right]);
      SameChainTrans(op, e, e1, e2);
      (e2, n1 + n2)
    else if p == q then (e, 0)
    else
      AtSmaller(op, e, p);
      var (a', n) := if a.Bin? then Dups1(a.op, a, [], []) else (a, 0);
      var j := Join(op, a', b);
      if j.Some? then
        var id := Sym(Identity(op));
        JoinShape(op, a', b);
        ReplaceSameChain(op, e, p, id);
        AtOther(op, e, p, id, q);
        var e1 := Replace(op, e, p, id);
        ReplaceSameChain(op, e1, q, j.value);
        SameChainTrans(op, e, e1, Replace(op, e1, q, j.value));
        (Replace(op, e1, q, j.value), n + 1)
      else
        ReplaceSameChain(op, e, p, a');
        (Replace(op, e, p, a'), n)
  }

  /** expr_eliminate_dups2: an operand whose negation consists of operands of the chain at q
      decides the chain, and is replaced by the deciding constant. Unlike in the first pass, the
      walk over the second place goes on with that place itself. */
  function Dups2(op: Op, e: Expr, p: Path, q: Path): (r: (Expr, nat))
    requires IsOp(op, e) && OnChain(op, e, p) && OnChain(op, e, q)
    ensures SameChain(op, e, r.0) && Bins(r.0) <= Bins(e)
    decreases Bins(e), Nodes(op, At(op, e, p)), Nodes(op, At(op, e, q))
  {
    SameChainRefl(op, e);
    var a, b := At(op, e, p), At(op, e, q);
    if IsOp(op, a) then
      Split(op, e, p);
      var (e1, n1) := Dups2(op, e, p + [Left], q);
      Stays(op, e, e1, p + [Right]);
      Stays(op, e, e1, q);
      var (e2, n2) := Dups2(op, e1, p + [Right], q);
      SameChainTrans(op, e, e1, e2);
      (e2, n1 + n2)
    else if IsOp(op, b) then
      Split(op, e, q);
      var (e1, n1) := Dups2(op, e, p, q + [Left]);
      Stays(op, e, e1, q + [Right]);
      Stays(op, e, e1, p);
      var (e2, n2) := Dups2(op, e1, p, q + [Right]);
      SameChainTrans(op, e, e1, e2);
      Stays(op, e, e2, p);
      Stays(op, e, e2, q);
      var (e3, n3) := Collapse(op, e2, p, q);
      SameChainTrans(op, e, e2, e3);
      (e3, n1 + n2 + n3)
    else if p == q then (e, 0)
    else Collapse(op, e, p, q)
  }

  /** The part of expr_eliminate_dups2 after the walk: one operand at p against all of q. */
  function Collapse(op: Op, e: Expr, p: Path, q: Path): (r: (Expr, nat))
    requires IsOp(op, e) && OnChain(op, e, p) && OnChain(op, e, q) && !IsOp(op, At(op, e, p))
    ensures SameChain(op, e, r.0) && Bins(r.0) <= Bins(e)
    decreases Bins(e), 0, 0, 0
  {
    var a := At(op, e, p);
    SameChainRefl(op, e);
    if !a.Bin? then (e, 0)
    else
      AtSmaller(op, e, p);
      var (a', n) := Dups2(a.op, a, [], []);
      ReplaceSameChain(op, e, p, a');
      var e1 := Replace(op, e, p, a');
      SameChainAt(op, e, e1, q);
      var (c, rest, _) := Extract(op, Transform(Not(a')), At(op, e1, q));
      if rest == Sym(Identity(op)) then
        var decided := Sym(Absorbing(op));
        ReplaceSameChain(op, e, p, decided);
        (Replace(op, e, p, decided), n + 1)
      else (e1, n)
  }
}
