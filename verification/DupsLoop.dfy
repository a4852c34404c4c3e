/** The loop of expr_eliminate_dups: it ends, what it returns, and what that is worth. */
module DuplicatesLoop {
  import opened Expr
  import opened Paths
  import opened ConstantElimination
  import opened Equality
  import opened Extraction
  import opened Transformation
  import opened Joining
  import opened Duplicates
  import opened DuplicatesProofs

  /** One round: both passes over the root chain, and what they add to trans_count. */
  function Round(e: Expr): (Expr, nat) {
    if e.Bin? then
      var (e1, n1) := Dups1(e.op, e, [], []);
      var (e2, n2) := Dups2(e.op, e1, [], []);
      (e2, n1 + n2)
    else (e, 0)
  }

  /** A round that counted anything leaves a y or n operand, so removing these shrinks the
      expression; a round that counted nothing changes nothing. */
  lemma RoundProgress(e: Expr)
    ensures Round(e).1 == 0 ==> Round(e).0 == e
    ensures Round(e).1 > 0 ==> HasYnOperand(Round(e).0)
    ensures Bins(Round(e).0) <= Bins(e)
    ensures Round(e).1 > 0 ==> Bins(EliminateYn(Round(e).0)) < Bins(e)
  {
    if e.Bin? {
      var e1 := Dups1(e.op, e, [], []).0;
      Dups1Marks(e.op, e, [], []);
      Dups2Marks(e.op, e1, [], []);
      EliminateYnShrinks(Round(e).0);
    }
  }

  lemma RoundSettles(env: Env, e: Expr)
    ensures Settles(Eval(env, e), Eval(env, Round(e).0))
  {
    if e.Bin? {
      Dups1Exact(env, e.op, e, [], []);
      Dups2Settles(env, e.op, Dups1(e.op, e, [], []).0, [], []);
    }
  }

  ghost function WithoutDups(e: Expr): Expr
    decreases Bins(e)
  {
    var (e', n) := Round(e);
    RoundProgress(e);
    if n == 0 then e' else WithoutDups(EliminateYn(e'))
  }

  /** The optimizer with its global counter of changes. */
  class Optimizer {
    var transCount: nat

    constructor ()
      ensures transCount == 0
    {
      transCount := 0;
    }

    method EliminateDups(expr: Expr) returns (e: Expr)
      modifies this
      ensures e == WithoutDups(expr)
      ensures transCount == old(transCount)
    {
      e := expr;
      var oldCount := transCount;
      while true
        invariant WithoutDups(e) == WithoutDups(expr)
        decreases Bins(e)
      {
        RoundProgress(e);
        transCount := 0;
        var (e', n) := Round(e);
        e := e';
        transCount := transCount + n;
        if transCount == 0 {
          break;
        }
        e := EliminateYn(e);
      }
      transCount := oldCount;
    }
  }

  /** expr_eliminate_dups keeps n and y; only an m may become definite. */
  lemma {:induction false} WithoutDupsSettles(env: Env, e: Expr)
    ensures Settles(Eval(env, e), Eval(env, WithoutDups(e)))
    decreases Bins(e)
  {
    var (e', n) := Round(e);
    RoundProgress(e);
    RoundSettles(env, e);
    if n != 0 {
      EliminateYnExact(env, e');
      WithoutDupsSettles(env, EliminateYn(e'));
    }
  }

  /** No symbol that stands as an operand has the value m. */
  ghost predicate TwoValued(env: Env, e: Expr) {
    match e
    case Sym(s) => TriOf(env, s) != MOD
    case Not(x) => TwoValued(env, x)
    case Bin(_, l, r) => TwoValued(env, l) && TwoValued(env, r)
    case _ => true
  }

  lemma {:induction false} TwoValuedEval(env: Env, e: Expr)
    requires TwoValued(env, e)
    ensures Eval(env, e) != MOD
  {
    match e
    case Not(x) => TwoValuedEval(env, x);
    case Bin(_, l, r) =>
      TwoValuedEval(env, l);
      TwoValuedEval(env, r);
    case _ =>
  }

  /** On two-valued operands it is exact. */
  lemma WithoutDupsExact(env: Env, e: Expr)
    requires TwoValued(env, e)
    ensures Eval(env, WithoutDups(e)) == Eval(env, e)
  {
    TwoValuedEval(env, e);
    WithoutDupsSettles(env, e);
  }

  /** The second pass never decides a chain, in any round. */
  ghost predicate NeverDecides(e: Expr)
    decreases Bins(e)
  {
    RoundProgress(e);
    e.Bin? ==>
      && Dups2(e.op, Dups1(e.op, e, [], []).0, [], []).1 == 0
      && (Round(e).1 > 0 ==> NeverDecides(EliminateYn(Round(e).0)))
  }

  /** It is also exact, on all three values, if only operands are joined. */
  lemma {:induction false} WithoutDupsJoinsExact(env: Env, e: Expr)
    requires NeverDecides(e)
    ensures Eval(env, WithoutDups(e)) == Eval(env, e)
    decreases Bins(e)
  {
    RoundProgress(e);
    if e.Bin? {
      var e1 := Dups1(e.op, e, [], []).0;
      Dups1Exact(env, e.op, e, [], []);
      Dups2Marks(e.op, e1, [], []);
      if Round(e).1 > 0 {
        EliminateYnExact(env, Round(e).0);
        WithoutDupsJoinsExact(env, EliminateYn(Round(e).0));
      }
    }
  }

  /** The places of two different operands of one chain. */
  ghost predicate OperandPair(op: Op, e: Expr, p: Path, q: Path) {
    OnChain(op, e, p) && !IsOp(op, At(op, e, p)) && OnChain(op, e, q) && !IsOp(op, At(op, e, q)) && p != q
  }

  ghost predicate CannotJoin(op: Op, e: Expr, p: Path, q: Path) {
    OperandPair(op, e, p, q) ==> Join(op, At(op, e, p), At(op, e, q)).None?
  }

  ghost predicate NothingToJoin(op: Op, e: Expr) {
    forall p: Path, q: Path :: CannotJoin(op, e, p, q)
  }

  /** No two operands of any chain above the negations can be joined; e stands in an op-chain. */
  ghost predicate Merged(op: Op, e: Expr)
    decreases e
  {
    e.Bin? ==>
      (IsOp(op, e) || NothingToJoin(e.op, e)) && Merged(e.op, e.left) && Merged(e.op, e.right)
  }

  lemma {:induction false} PrefixOnChain(op: Op, e: Expr, p: Path, q: Path)
    requires OnChain(op, e, q) && p <= q
    ensures OnChain(op, e, p)
    ensures p != q ==> IsOp(op, At(op, e, p))
  {
    if p != [] {
      PrefixOnChain(op, Child(e, p[0]), p[1..], q[1..]);
    }
  }

  /** A first pass that counts nothing has looked at every pair of operands below its two places,
      and inside each of the first ones. */
  lemma {:induction false} Dups1Zero(op: Op, e: Expr, p: Path, q: Path, p': Path, q': Path)
    requires IsOp(op, e) && OnChain(op, e, p) && OnChain(op, e, q)
    requires Dups1(op, e, p, q).1 == 0
    requires OperandPair(op, e, p', q') && p <= p' && q <= q'
    ensures Join(op, At(op, e, p'), At(op, e, q')).None?
    ensures var a := At(op, e, p'); a.Bin? ==> Dups1(a.op, a, [], []).1 == 0
    decreases Bins(e), Nodes(op, At(op, e, p)), Nodes(op, At(op, e, q))
  {
    var a, b := At(op, e, p), At(op, e, q);
    PrefixOnChain(op, e, p, p');
    PrefixOnChain(op, e, q, q');
    if IsOp(op, a) {
      Split(op, e, p);
      Dups1Marks(op, e, p + [Left], q);
      assert p != p';
      if p'[|p|] == Left {
        Dups1Zero(op, e, p + [Left], q, p', q');
      } else {
        Dups1Zero(op, e, p + [Right], q, p', q');
      }
    } else if IsOp(op, b) {
      Split(op, e, q);
      Dups1Marks(op, e, p, q + [Left]);
      assert q != q';
      if q'[|q|] == Left {
        Dups1Zero(op, e, p, q + [Left], p', q');
      } else {
        Dups1Zero(op, e, p, q + [Right], p', q');
      }
    } else if a.Bin? {
      AtSmaller(op, e, p);
      Dups1Marks(a.op, a, [], []);
    }
  }

  /** Some operand of a chain, by its place. */
  ghost function AnOperand(op: Op, e: Expr): (p: Path)
    ensures OnChain(op, e, p) && !IsOp(op, At(op, e, p))
  {
    if IsOp(op, e) then [Left] + AnOperand(op, e.left) else []
  }

  lemma {:induction false} AppendOnChain(op: Op, e: Expr, p: Path, q: Path)
    requires OnChain(op, e, p) && OnChain(op, At(op, e, p), q)
    ensures OnChain(op, e, p + q) && At(op, e, p + q) == At(op, At(op, e, p), q)
  {
    if p == [] {
      assert p + q == q;
    } else {
      assert (p + q)[1..] == p[1..] + q;
      AppendOnChain(op, Child(e, p[0]), p[1..], q);
    }
  }

  /** Every operand of a chain has another one beside it. */
  lemma OtherOperand(op: Op, e: Expr, p: Path) returns (q: Path)
    requires IsOp(op, e) && OnChain(op, e, p) && !IsOp(op, At(op, e, p))
    ensures OperandPair(op, e, p, q)
  {
    var other := if p[0] == Left then Right else Left;
    assert At(op, e, [other]) == Child(e, other);
    q := [other] + AnOperand(op, Child(e, other));
  }

  lemma {:induction false} ZeroMerged(op: Op, e: Expr, p: Path)
    requires IsOp(op, e) && OnChain(op, e, p)
    requires Dups1(op, e, [], []).1 == 0
    ensures Merged(op, At(op, e, p))
    decreases Bins(e), Nodes(op, At(op, e, p))
  {
    var a := At(op, e, p);
    if IsOp(op, a) {
      Split(op, e, p);
      ZeroMerged(op, e, p + [Left]);
      ZeroMerged(op, e, p + [Right]);
    } else if a.Bin? {
      var q := OtherOperand(op, e, p);
      Dups1Zero(op, e, [], [], p, q);
      AtSmaller(op, e, p);
      ZeroNothingToJoin(a.op, a);
      ZeroMerged(a.op, a, []);
    }
  }

  lemma {:induction false} ZeroPair(op: Op, e: Expr, p: Path, q: Path)
    requires IsOp(op, e) && Dups1(op, e, [], []).1 == 0
    ensures CannotJoin(op, e, p, q)
  {
    if OperandPair(op, e, p, q) {
      Dups1Zero(op, e, [], [], p, q);
    }
  }

  lemma {:induction false} ZeroNothingToJoin(op: Op, e: Expr)
    requires IsOp(op, e) && Dups1(op, e, [], []).1 == 0
    ensures NothingToJoin(op, e)
  {
    forall p: Path, q: Path ensures CannotJoin(op, e, p, q) {
      ZeroPair(op, e, p, q);
    }
  }

  lemma {:induction false} OperandMerged(op: Op, e: Expr, p: Path)
    requires OnChain(op, e, p) && Merged(op, e)
    ensures Merged(op, At(op, e, p))
  {
    if p != [] {
      OperandMerged(op, Child(e, p[0]), p[1..]);
    }
  }

  /** The walk counts nothing when no pair of operands can be joined. */
  lemma {:induction false} MergedZero(op: Op, e: Expr, p: Path, q: Path)
    requires IsOp(op, e) && OnChain(op, e, p) && OnChain(op, e, q)
    requires NothingToJoin(op, e) && Merged(op, e)
    ensures Dups1(op, e, p, q).1 == 0
    decreases Bins(e), Nodes(op, At(op, e, p)), Nodes(op, At(op, e, q))
  {
    var a, b := At(op, e, p), At(op, e, q);
    if IsOp(op, a) {
      Split(op, e, p);
      MergedZero(op, e, p + [Left], q);
      Dups1Marks(op, e, p + [Left], q);
      MergedZero(op, e, p + [Right], q);
    } else if IsOp(op, b) {
      Split(op, e, q);
      MergedZero(op, e, p, q + [Left]);
      Dups1Marks(op, e, p, q + [Left]);
      MergedZero(op, e, p, q + [Right]);
    } else if p != q {
      assert CannotJoin(op, e, p, q);
      OperandMerged(op, e, p);
      AtSmaller(op, e, p);
      if a.Bin? {
        MergedZero(a.op, a, [], []);
        Dups1Marks(a.op, a, [], []);
      }
    }
  }

  /** The first pass leaves a chain alone exactly when no two operands of it, or of a chain inside
      it, can be joined. */
  lemma FirstPassIdle(e: Expr)
    requires e.Bin?
    ensures Dups1(e.op, e, [], []).1 == 0 <==> Merged(Dual(e.op), e)
  {
    if Merged(Dual(e.op), e) {
      MergedZero(e.op, e, [], []);
    }
    if Dups1(e.op, e, [], []).1 == 0 {
      ZeroNothingToJoin(e.op, e);
      ZeroMerged(e.op, e, []);
    }
  }

  /** The result is final: another run returns it unchanged, and no two operands of any of its
      chains outside negations can be joined; in particular none is equal to another. */
  lemma {:induction false} WithoutDupsFinal(e: Expr)
    ensures WithoutDups(WithoutDups(e)) == WithoutDups(e)
    ensures var r := WithoutDups(e); r.Bin? ==> Merged(Dual(r.op), r)
    ensures Bins(WithoutDups(e)) <= Bins(e)
    decreases Bins(e)
  {
    var (e', n) := Round(e);
    RoundProgress(e);
    if n != 0 {
      WithoutDupsFinal(EliminateYn(e'));
    } else if e.Bin? {
      Dups1Marks(e.op, e, [], []);
      FirstPassIdle(e);
    }
  }

  /** c stands in e outside negations. */
  ghost predicate Reaches(e: Expr, c: Expr) {
    e == c || (e.Bin? && (Reaches(e.left, c) || Reaches(e.right, c)))
  }

  lemma {:induction false} NothingToJoinBelow(op: Op, e: Expr, s: Side)
    requires IsOp(op, e) && NothingToJoin(op, e)
    ensures NothingToJoin(op, Child(e, s))
  {
    forall p: Path, q: Path ensures CannotJoin(op, Child(e, s), p, q) {
      assert ([s] + p)[1..] == p && ([s] + q)[1..] == q;
      assert CannotJoin(op, e, [s] + p, [s] + q);
    }
  }

  lemma {:induction false} MergedReaches(op: Op, e: Expr, c: Expr)
    requires Merged(op, e) && (IsOp(op, e) ==> NothingToJoin(op, e)) && Reaches(e, c) && c.Bin?
    ensures NothingToJoin(c.op, c)
    decreases e
  {
    if e != c {
      if IsOp(op, e) {
        NothingToJoinBelow(op, e, Left);
        NothingToJoinBelow(op, e, Right);
      } else {
        NothingToJoinBelow(e.op, e, Left);
        NothingToJoinBelow(e.op, e, Right);
      }
      if Reaches(e.left, c) {
        MergedReaches(e.op, e.left, c);
      } else {
        MergedReaches(e.op, e.right, c);
      }
    }
  }

  /** Nothing is left to merge: in every chain of the result outside negations, two different
      operands are not equal, and the joining tables have no entry for them. */
  lemma {:induction false} NoDuplicatesLeft(e: Expr, c: Expr, p: Path, q: Path)
    requires c.Bin? && Reaches(WithoutDups(e), c) && OperandPair(c.op, c, p, q)
    ensures !ExprEq(At(c.op, c, p), At(c.op, c, q))
    ensures !Merges(c.op, At(c.op, c, p), At(c.op, c, q))
  {
    var r := WithoutDups(e);
    WithoutDupsFinal(e);
    assert r.Bin? && Merged(Dual(r.op), r);
    MergedReaches(Dual(r.op), r, c);
    assert CannotJoin(c.op, c, p, q);
    JoinIff(c.op, At(c.op, c, p), At(c.op, c, q));
  }

  /** A second pass that counts nothing has compared every operand below p with the whole chain. */
  lemma {:induction false} Dups2Zero(op: Op, e: Expr, p: Path, p': Path)
    requires IsOp(op, e) && OnChain(op, e, p) && Dups2(op, e, p, []).1 == 0
    requires OnChain(op, e, p') && p <= p' && !IsOp(op, At(op, e, p'))
    ensures Collapse(op, e, p', []).1 == 0
    decreases Nodes(op, At(op, e, p))
  {
    PrefixOnChain(op, e, p, p');
    if IsOp(op, At(op, e, p)) {
      Split(op, e, p);
      Dups2Marks(op, e, p + [Left], []);
      assert p != p';
      if p'[|p|] == Left {
        Dups2Zero(op, e, p + [Left], p');
      } else {
        Dups2Zero(op, e, p + [Right], p');
      }
    } else {
      Split(op, e, []);
      Dups2Marks(op, e, p, [Left]);
      Dups2Marks(op, e, p, [Right]);
      assert [] + [Left] == [Left] && [] + [Right] == [Right];
    }
  }

  /** Nothing is left to decide: no operand of the root chain of the result has a negation all of
      whose operands the chain holds. */
  lemma {:induction false} NothingDecidesResult(e: Expr, p: Path)
    requires var r := WithoutDups(e);
             r.Bin? && OnChain(r.op, r, p) && At(r.op, r, p).Bin? && At(r.op, r, p).op != r.op
    ensures var r := WithoutDups(e);
            Extract(r.op, Transform(Not(At(r.op, r, p))), r).1 != Sym(Identity(r.op))
  {
    var r := WithoutDups(e);
    RoundOfResult(e);
    Dups1Marks(r.op, r, [], []);
    Dups2Zero(r.op, r, [], p);
    var a := At(r.op, r, p);
    AtSmaller(r.op, r, p);
    Dups2Marks(a.op, a, [], []);
    AtSame(r.op, r, p, a);
  }

  lemma {:induction false} RoundOfResult(e: Expr)
    ensures Round(WithoutDups(e)) == (WithoutDups(e), 0)
    decreases Bins(e)
  {
    RoundProgress(e);
    if Round(e).1 != 0 {
      RoundOfResult(EliminateYn(Round(e).0));
    }
  }

  // ---- Chains that stay as they are ----

  /** All operands of the op-chain are symbols, comparisons or negations. */
  ghost predicate Flat(op: Op, e: Expr) {
    if IsOp(op, e) then Flat(op, e.left) && Flat(op, e.right) else !e.Bin?
  }

  lemma {:induction false} FlatAt(op: Op, e: Expr, p: Path)
    requires Flat(op, e) && OnChain(op, e, p)
    ensures Flat(op, At(op, e, p))
  {
    if p != [] {
      FlatAt(op, Child(e, p[0]), p[1..]);
    }
  }

  /** The second pass does nothing to such a chain. */
  lemma {:induction false} FlatIdle(op: Op, e: Expr, p: Path, q: Path)
    requires IsOp(op, e) && Flat(op, e) && OnChain(op, e, p) && OnChain(op, e, q)
    ensures Dups2(op, e, p, q) == (e, 0)
    decreases Nodes(op, At(op, e, p)), Nodes(op, At(op, e, q))
  {
    FlatAt(op, e, p);
    if IsOp(op, At(op, e, p)) {
      Split(op, e, p);
      FlatIdle(op, e, p + [Left], q);
      FlatIdle(op, e, p + [Right], q);
    } else if IsOp(op, At(op, e, q)) {
      Split(op, e, q);
      FlatIdle(op, e, p, q + [Left]);
      FlatIdle(op, e, p, q + [Right]);
    }
  }

  lemma {:induction false} FlatMerged(op: Op, e: Expr)
    requires Flat(op, e)
    ensures Merged(op, e)
  {
    if IsOp(op, e) {
      FlatMerged(op, e.left);
      FlatMerged(op, e.right);
    }
  }

  /** Such a chain is returned as it is if no two of its operands can be joined. */
  lemma {:induction false} FlatStays(op: Op, e: Expr)
    requires IsOp(op, e) && Flat(op, e) && NothingToJoin(op, e)
    ensures WithoutDups(e) == e
  {
    FlatMerged(op, e.left);
    FlatMerged(op, e.right);
    assert Merged(Dual(op), e);
    FirstPassIdle(e);
    Dups1Marks(op, e, [], []);
    FlatIdle(op, e, [], []);
    assert Round(e) == (e, 0);
  }
}
