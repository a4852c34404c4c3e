/** When expr_eq finds an expression equal to itself. */
module Reflexivity {
  import opened Expr
  import opened Chains
  import opened ConstantElimination
  import opened Equality
  import opened Transformation

  ghost function Literals(op: Op, e: Expr): nat {
    if IsOp(op, e) then Literals(op, e.left) + Literals(op, e.right)
    else if e.Sym? && e.sym.Literal? then 1 else 0
  }

  /** No AND/OR chain has two string constants as operands. */
  ghost predicate Tame(e: Expr) {
    match e
    case Not(x) => Tame(x)
    case Bin(op, l, r) => Literals(op, e) <= 1 && Tame(l) && Tame(r)
    case _ => true
  }

  /** No AND or OR anywhere, below NOT included, has y or n as an operand. */
  ghost predicate YnFree(e: Expr) {
    match e
    case Not(x) => YnFree(x)
    case Bin(_, l, r) => !IsYn(l) && !IsYn(r) && YnFree(l) && YnFree(r)
    case _ => true
  }

  /** What is left of a chain compared with itself: every operand but the flagged constants has
      been cancelled. */
  ghost function Residue(op: Op, e: Expr): Expr {
    if IsOp(op, e) then Bin(op, Residue(op, e.left), Residue(op, e.right))
    else if Flagged(e) then e
    else Sym(Identity(op))
  }

  ghost predicate Flagged(e: Expr) {
    e.Sym? && HasYesNoFlag(e.sym)
  }

  /** An operand that equals none of the operands of the chain e leaves the chain alone. */
  lemma {:induction false} NoMatch(op: Op, x: Expr, e: Expr)
    requires !IsOp(op, x)
    requires forall y <- Operands(op, e) :: !ExprEq(x, y) || (x == y && Flagged(x))
    ensures CancelEq(op, x, e) == (x, e)
  {
    if IsOp(op, e) {
      NoMatch(op, x, e.left);
      NoMatch(op, x, e.right);
    } else {
      assert e in Operands(op, e);
    }
  }

  lemma {:induction false} IdentityPasses(op: Op, e: Expr)
    ensures CancelEq(op, Sym(Identity(op)), e) == (Sym(Identity(op)), e)
  {
    NoMatch(op, Sym(Identity(op)), e);
  }

  /** An operand without a flag passes a chain of flagged constants. */
  lemma {:induction false} ConstantsPass(op: Op, x: Expr, e: Expr)
    requires !IsOp(op, x) && !Flagged(x) && forall y <- Operands(op, e) :: Flagged(y)
    ensures CancelEq(op, x, e) == (x, e)
  {
    NoMatch(op, x, e);
  }

  /** Where x stands in two sequences one after the other, and what they are with y in its place. */
  lemma SplitAt<T>(ls: seq<T>, rs: seq<T>, pre: seq<T>, x: T, post: seq<T>, y: T)
    requires ls + rs == pre + [x] + post
    ensures |pre| < |ls| ==>
              var k := |ls| - |pre| - 1;
              k <= |post| && ls == pre + [x] + post[..k] && (pre + [y] + post[..k]) + rs == pre + [y] + post
    ensures |ls| <= |pre| ==>
              && ls == pre[..|ls|] && rs == pre[|ls|..] + [x] + post
              && ls + (pre[|ls|..] + [y] + post) == pre + [y] + post
  {
    var all := pre + [x] + post;
    assert ls == all[..|ls|];
    assert rs == all[|ls|..];
  }

  /** An operand x meets a chain in which it occurs after flagged constants only: it is cancelled
      against itself. */
  lemma {:induction false} MatchSelf(op: Op, x: Expr, e: Expr, pre: seq<Expr>, post: seq<Expr>)
    requires !IsOp(op, x) && !Flagged(x) && ExprEq(x, x)
    requires Operands(op, e) == pre + [x] + post
    requires forall y <- pre :: Flagged(y)
    ensures CancelEq(op, x, e).0 == Sym(Identity(op))
    ensures Operands(op, CancelEq(op, x, e).1) == pre + [Sym(Identity(op))] + post
    ensures SameChain(op, e, CancelEq(op, x, e).1)
  {
    hide ExprEq, Flagged, CancelEq, SameChain;
    var id := Sym(Identity(op));
    if IsOp(op, e) {
      var ls, rs := Operands(op, e.left), Operands(op, e.right);
      SplitAt(ls, rs, pre, x, post, id);
      if |pre| < |ls| {
        var k := |ls| - |pre| - 1;
        MatchSelf(op, x, e.left, pre, post[..k]);
        IdentityPasses(op, e.right);
        ChainMeets(op, x, e);
      } else {
        assert forall y <- ls :: y in pre;
        ConstantsPass(op, x, e.left);
        MatchSelf(op, x, e.right, pre[|ls|..], post);
        ChainMeets(op, x, e);
      }
    } else {
      assert pre == [] && post == [];
      assert e == (pre + [x] + post)[0];
      MeetsSelf(op, x);
    }
  }

  lemma {:induction false} MeetsSelf(op: Op, x: Expr)
    requires !IsOp(op, x) && !Flagged(x) && ExprEq(x, x)
    ensures CancelEq(op, x, x) == (Sym(Identity(op)), Sym(Identity(op)))
    ensures SameChain(op, x, Sym(Identity(op)))
  {
  }

  /** An operand meets first the left side of a chain, and what is left of it the right side. */
  lemma {:induction false} ChainMeets(op: Op, x: Expr, e: Expr)
    requires !IsOp(op, x) && IsOp(op, e)
    ensures var first := CancelEq(op, x, e.left);
            !IsOp(op, first.0) ==>
              var second := CancelEq(op, first.0, e.right);
              && CancelEq(op, x, e) == (second.0, Bin(op, first.1, second.1))
              && (SameChain(op, e.left, first.1) && SameChain(op, e.right, second.1) ==>
                    SameChain(op, e, CancelEq(op, x, e).1))
              && (first.1 == e.left ==> SameChain(op, e.left, first.1))
              && (second.1 == e.right ==> SameChain(op, e.right, second.1))
  {
    SameChainRefl(op, e.left);
    SameChainRefl(op, e.right);
  }

  /** Running the chain a against a chain e that holds the operands of a after flagged constants. */
  lemma {:induction false} Diagonal(op: Op, a: Expr, e: Expr, pre: seq<Expr>, post: seq<Expr>)
    requires forall x <- Operands(op, a) :: Flagged(x) || ExprEq(x, x)
    requires Operands(op, e) == pre + Operands(op, a) + post
    requires forall y <- pre :: Flagged(y)
    ensures CancelEq(op, a, e).0 == Residue(op, a)
    ensures Operands(op, CancelEq(op, a, e).1) == pre + Operands(op, Residue(op, a)) + post
    ensures SameChain(op, e, CancelEq(op, a, e).1)
  {
    if IsOp(op, a) {
      var ls, rs := Operands(op, a.left), Operands(op, a.right);
      var ls' := Operands(op, Residue(op, a.left));
      var rs' := Operands(op, Residue(op, a.right));
      Reassociate(pre, ls, rs, post);
      Reassociate(pre, ls', rs, post);
      Reassociate(pre, ls', rs', post);
      Diagonal(op, a.left, e, pre, rs + post);
      var e1 := CancelEq(op, a.left, e).1;
      ResidueFlagged(op, a.left);
      Diagonal(op, a.right, e1, pre + ls', post);
      SameChainTrans(op, e, e1, CancelEq(op, a.right, e1).1);
    } else {
      assert a in Operands(op, a);
      if Flagged(a) {
        NoMatch(op, a, e);
        SameChainRefl(op, e);
      } else {
        MatchSelf(op, a, e, pre, post);
      }
    }
  }

  lemma Reassociate<T>(a: seq<T>, b: seq<T>, c: seq<T>, d: seq<T>)
    ensures a + (b + c) + d == a + b + (c + d)
    ensures a + (b + c) + d == (a + b) + c + d
  {
  }

  lemma {:induction false} ResidueFlagged(op: Op, e: Expr)
    ensures forall x <- Operands(op, Residue(op, e)) :: Flagged(x)
    ensures SameChain(op, e, Residue(op, e))
  {
    if IsOp(op, e) {
      ResidueFlagged(op, e.left);
      ResidueFlagged(op, e.right);
    }
  }

  lemma {:induction false} ResidueIsSymbol(op: Op, e: Expr)
    requires Literals(op, e) <= 1
    ensures EliminateYn(Residue(op, e)).Sym?
    ensures Literals(op, e) == 0 ==> IsYn(EliminateYn(Residue(op, e)))
  {
    if IsOp(op, e) {
      ResidueIsSymbol(op, e.left);
      ResidueIsSymbol(op, e.right);
    }
  }

  lemma {:induction false} TameOperands(op: Op, e: Expr)
    requires Tame(e)
    ensures forall x <- Operands(op, e) :: Tame(x) && Size(x) <= Size(e) && !IsOp(op, x)
  {
    if IsOp(op, e) {
      TameOperands(op, e.left);
      TameOperands(op, e.right);
    }
  }

  /** expr_eq is reflexive on every expression in which no chain has two string constants. */
  lemma {:induction false} ExprEqReflexive(e: Expr)
    requires Tame(e)
    ensures ExprEq(e, e)
    decreases Size(e)
  {
    if e.Not? {
      ExprEqReflexive(e.arg);
    } else if e.Bin? {
      TameOperands(e.op, e);
      TameOperands(e.op, e.left);
      TameOperands(e.op, e.right);
      forall x <- Operands(e.op, e) ensures ExprEq(x, x) {
        ExprEqReflexive(x);
      }
      assert [] + Operands(e.op, e) + [] == Operands(e.op, e);
      Diagonal(e.op, e, e, [], []);
      ResidueFlagged(e.op, e);
      var (a', b') := CancelEq(e.op, e, e);
      assert Operands(e.op, b') == Operands(e.op, a');
      SameChainSym(e.op, e, a');
      SameChainTrans(e.op, a', e, b');
      SameOperands(e.op, a', b');
      ResidueIsSymbol(e.op, e);
    }
  }

  /** e arises from e0 by cancelling some of the operands that may be cancelled. */
  ghost predicate Cancelled(op: Op, e0: Expr, e: Expr) {
    if IsOp(op, e0) then
      IsOp(op, e) && Cancelled(op, e0.left, e.left) && Cancelled(op, e0.right, e.right)
    else
      !IsOp(op, e) &&
      (e == e0 || (e == Sym(Identity(op)) && Tame(e0) && Literals(op, e0) == 0))
  }

  /** Every operand of the op-chain is free of y and n operands, or is itself the identity. */
  ghost predicate CancelledForm(op: Op, e: Expr) {
    if IsOp(op, e) then CancelledForm(op, e.left) && CancelledForm(op, e.right)
    else e == Sym(Identity(op)) || (!IsYn(e) && YnFree(e))
  }

  lemma {:induction false} CancelledTrans(op: Op, a: Expr, b: Expr, c: Expr)
    requires Cancelled(op, a, b) && Cancelled(op, b, c)
    ensures Cancelled(op, a, c)
  {
    if IsOp(op, a) {
      CancelledTrans(op, a.left, b.left, c.left);
      CancelledTrans(op, a.right, b.right, c.right);
    }
  }

  lemma {:induction false} CancelledRefl(op: Op, e: Expr)
    ensures Cancelled(op, e, e)
  {
    if IsOp(op, e) {
      CancelledRefl(op, e.left);
      CancelledRefl(op, e.right);
    }
  }

  lemma {:induction false} YnFreeChain(op: Op, e: Expr)
    requires YnFree(e) && !IsYn(e)
    ensures CancelledForm(op, e) && !HasYnOperand(e)
  {
    if e.Bin? {
      YnFreeChain(op, e.left);
      YnFreeChain(op, e.right);
    }
  }

  /** Cancelling only ever removes operands that are equal to themselves. */
  lemma {:induction false} CancelEqCancels(op: Op, a: Expr, b: Expr)
    requires CancelledForm(op, a) && CancelledForm(op, b)
    ensures Cancelled(op, a, CancelEq(op, a, b).0) && CancelledForm(op, CancelEq(op, a, b).0)
    ensures Cancelled(op, b, CancelEq(op, a, b).1) && CancelledForm(op, CancelEq(op, a, b).1)
    decreases Size(a) + Size(b), if IsOp(op, a) || IsOp(op, b) then 0 else 4
  {
    if IsOp(op, a) {
      var b1 := CancelEq(op, a.left, b).1;
      CancelEqCancels(op, a.left, b);
      CancelEqCancels(op, a.right, b1);
      CancelledTrans(op, b, b1, CancelEq(op, a.right, b1).1);
    } else if IsOp(op, b) {
      var a1 := CancelEq(op, a, b.left).0;
      CancelEqCancels(op, a, b.left);
      CancelEqCancels(op, a1, b.right);
      CancelledTrans(op, a, a1, CancelEq(op, a1, b.right).0);
    } else if !(a.Sym? && a == b && HasYesNoFlag(a.sym)) && ExprEq(a, b) {
      EqualIsTame(a, b);
    }
  }

  /** A chain without its deciding constant that cancelling turns into a symbol had at most one
      string constant to start with. */
  lemma {:induction false} SymbolResidue(op: Op, e0: Expr, e: Expr)
    requires CancelledForm(op, e0) && Cancelled(op, e0, e)
    requires EliminateYn(e).Sym?
    ensures TameChain(op, e0) && Literals(op, e0) <= 1
    ensures EliminateYn(e) != Sym(Absorbing(op))
    ensures Literals(op, e0) == 1 ==> EliminateYn(e) != Sym(Identity(op))
  {
    if IsOp(op, e0) {
      if EliminateYn(e.left).Sym? {
        SymbolResidue(op, e0.left, e.left);
      }
      if EliminateYn(e.right).Sym? {
        SymbolResidue(op, e0.right, e.right);
      }
    } else if e0 != Sym(Identity(op)) {
      YnFreeChain(op, e0);
      EliminateYnShrinks(e0);
    }
  }

  /** The operands of the op-chain are tame. */
  ghost predicate TameChain(op: Op, e: Expr) {
    if IsOp(op, e) then TameChain(op, e.left) && TameChain(op, e.right) else Tame(e)
  }

  lemma {:induction false} TameChainTame(op: Op, e: Expr)
    requires TameChain(op, e) && Literals(op, e) <= 1
    ensures Tame(e)
  {
    if IsOp(op, e) {
      TameChainTame(op, e.left);
      TameChainTame(op, e.right);
    }
  }

  /** Only expressions equal to themselves are equal to anything. */
  lemma {:induction false} EqualIsTame(a: Expr, b: Expr)
    requires ExprEq(a, b) && YnFree(a) && YnFree(b)
    ensures Tame(a) && Tame(b)
    decreases Size(a) + Size(b), 2
  {
    if a.Not? {
      EqualIsTame(a.arg, b.arg);
    } else if a.Bin? {
      YnFreeChain(a.op, a);
      YnFreeChain(a.op, b);
      EqualFormsTame(a, b);
    }
  }

  lemma {:induction false} EqualFormsTame(a: Expr, b: Expr)
    requires a.Bin? && IsOp(a.op, b) && ExprEq(a, b) && CancelledForm(a.op, a) && CancelledForm(a.op, b)
    ensures Tame(a) && Tame(b)
    decreases Size(a) + Size(b), 1
  {
    var (a', b') := CancelEq(a.op, a, b);
    CancelEqCancels(a.op, a, b);
    SymbolResidue(a.op, a, a');
    SymbolResidue(a.op, b, b');
    TameChainTame(a.op, a);
    TameChainTame(a.op, b);
  }

  // ---- Deciding constants ----

  /** The deciding constant is an operand of the chain at the root. */
  ghost predicate Decided(op: Op, e: Expr) {
    if IsOp(op, e) then Decided(op, e.left) || Decided(op, e.right) else e == Sym(Absorbing(op))
  }

  lemma {:induction false} CancelKeepsDecided(op: Op, a: Expr, b: Expr)
    ensures Decided(op, a) ==> Decided(op, CancelEq(op, a, b).0)
    ensures Decided(op, b) ==> Decided(op, CancelEq(op, a, b).1)
    decreases Size(a) + Size(b)
  {
    if IsOp(op, a) {
      CancelKeepsDecided(op, a.left, b);
      CancelKeepsDecided(op, a.right, CancelEq(op, a.left, b).1);
    } else if IsOp(op, b) {
      CancelKeepsDecided(op, a, b.left);
      CancelKeepsDecided(op, CancelEq(op, a, b.left).0, b.right);
    } else if ExprEq(a, b) && (Decided(op, a) || Decided(op, b)) {
      assert a == b;
    }
  }

  lemma {:induction false} DecidedEliminated(op: Op, e: Expr)
    requires Decided(op, e)
    ensures EliminateYn(e) == Sym(Absorbing(op))
  {
    if IsOp(op, e) {
      if Decided(op, e.left) {
        DecidedEliminated(op, e.left);
      } else {
        DecidedEliminated(op, e.right);
      }
    }
  }

  /** Any two chains that hold their deciding constant are equal, whatever else they hold. */
  lemma {:induction false} DecidedEqual(a: Expr, b: Expr)
    requires a.Bin? && IsOp(a.op, b) && Decided(a.op, a) && Decided(a.op, b)
    ensures ExprEq(a, b)
  {
    CancelKeepsDecided(a.op, a, b);
    DecidedEliminated(a.op, CancelEq(a.op, a, b).0);
    DecidedEliminated(a.op, CancelEq(a.op, a, b).1);
  }

  /** y and n occur, if at all, as operands of the chain at the root. */
  ghost predicate YnOnTop(e: Expr) {
    match e
    case Not(x) => YnOnTop(x)
    case Bin(op, _, _) => YnOnTopChain(op, e)
    case _ => true
  }

  ghost predicate YnOnTopChain(op: Op, e: Expr) {
    if IsOp(op, e) then YnOnTopChain(op, e.left) && YnOnTopChain(op, e.right) else IsYn(e) || YnFree(e)
  }

  /** The chain at the root, below negations, holds its deciding constant. */
  ghost predicate DecidedOnTop(e: Expr) {
    match e
    case Not(x) => DecidedOnTop(x)
    case Bin(op, _, _) => Decided(op, e)
    case _ => false
  }

  lemma {:induction false} UndecidedForm(op: Op, e: Expr)
    requires YnOnTopChain(op, e) && !Decided(op, e)
    ensures CancelledForm(op, e)
  {
    if IsOp(op, e) {
      UndecidedForm(op, e.left);
      UndecidedForm(op, e.right);
    }
  }

  /** An expression whose y and n operands are at the root is equal to itself exactly if one of them
      decides it or none of its chains has two string constants. */
  lemma {:induction false} ExprEqReflexiveIff(e: Expr)
    requires YnOnTop(e)
    ensures ExprEq(e, e) <==> DecidedOnTop(e) || Tame(e)
  {
    if Tame(e) {
      ExprEqReflexive(e);
    } else if e.Not? {
      ExprEqReflexiveIff(e.arg);
    } else if DecidedOnTop(e) {
      DecidedEqual(e, e);
    } else if ExprEq(e, e) {
      UndecidedForm(e.op, e);
      EqualFormsTame(e, e);
    }
  }

  /** What expr_transform and expr_eliminate_yn leave has no y or n operand at all. */
  lemma {:induction false} CleanIsYnOnTop(e: Expr)
    requires Normal(e) && !HasYnOperand(e)
    ensures YnFree(e) && YnOnTop(e) && !DecidedOnTop(e)
  {
    CleanIsYnFree(e);
    if e.Bin? {
      assert !IsYn(e);
      YnFreeOnTop(e.op, e);
    } else if e.Not? {
      assert e.arg.Sym?;
    }
  }

  lemma {:induction false} CleanIsYnFree(e: Expr)
    requires Normal(e) && !HasYnOperand(e)
    ensures YnFree(e)
  {
    if e.Bin? {
      CleanIsYnFree(e.left);
      CleanIsYnFree(e.right);
    }
  }

  lemma {:induction false} YnFreeOnTop(op: Op, e: Expr)
    requires YnFree(e) && !IsYn(e)
    ensures YnOnTopChain(op, e) && !Decided(op, e)
  {
    if IsOp(op, e) {
      YnFreeOnTop(op, e.left);
      YnFreeOnTop(op, e.right);
    }
  }

  lemma {:induction false} ChainAgainst(op: Op, l: Expr, r: Expr, e: Expr)
    ensures var (l', e1) := CancelEq(op, l, e);
            var (r', e2) := CancelEq(op, r, e1);
            CancelEq(op, Bin(op, l, r), e) == (Bin(op, l', r'), e2)
  {
  }

  lemma {:induction false} ChainEq(a: Expr, b: Expr)
    requires a.Bin? && IsOp(a.op, b)
    ensures var (a', b') := CancelEq(a.op, a, b);
            ExprEq(a, b) <==> EliminateYn(a').Sym? && EliminateYn(a') == EliminateYn(b')
  {
  }

  lemma {:induction false} AllYes()
    ensures var w := Bin(And, Sym(Yes), Sym(Yes));
            ExprEq(w, w) && EliminateYn(w) == Sym(Yes) && forall s: Symbol :: !ExprEq(w, Sym(s))
  {
    var yes := Sym(Yes);
    YesStays(yes);
    ChainAgainst(And, yes, yes, Bin(And, yes, yes));
    ChainEq(Bin(And, yes, yes), Bin(And, yes, yes));
  }

  lemma {:induction false} YesStays(yes: Expr)
    requires yes == Sym(Yes)
    ensures CancelEq(And, yes, Bin(And, yes, yes)) == (yes, Bin(And, yes, yes))
  {
    NoMatch(And, yes, Bin(And, yes, yes));
  }

  /** Deeper down no such condition on the operands one by one is possible: a chain that is not
      equal to itself may be equal to another one, when a chain of constants decides it. */
  lemma {:induction false} EqualNotReflexive()
    ensures var f, g, h := Sym(Literal("f")), Sym(Literal("g")), Sym(Literal("h"));
            var a := Bin(Or, Bin(And, Sym(Yes), Sym(Yes)), Bin(Or, f, g));
            ExprEq(a, Bin(Or, Sym(Yes), h)) && !ExprEq(a, a)
  {
    EqualToOther(Sym(Literal("f")), Sym(Literal("g")), Sym(Literal("h")));
    NotToItself(Sym(Literal("f")), Sym(Literal("g")));
  }

  lemma {:induction false} EqualToOther(f: Expr, g: Expr, h: Expr)
    requires f.Sym? && g.Sym? && h.Sym? && f != h && g != h && f != Sym(Yes) && g != Sym(Yes)
    ensures ExprEq(Bin(Or, Bin(And, Sym(Yes), Sym(Yes)), Bin(Or, f, g)), Bin(Or, Sym(Yes), h))
  {
    var w, fg, b := Bin(And, Sym(Yes), Sym(Yes)), Bin(Or, f, g), Bin(Or, Sym(Yes), h);
    AllYes();
    assert Operands(Or, b) == [Sym(Yes), h];
    NoMatch(Or, w, b);
    NoMatch(Or, f, b);
    NoMatch(Or, g, b);
    ChainAgainst(Or, f, g, b);
    ChainAgainst(Or, w, fg, b);
    ChainEq(Bin(Or, w, fg), b);
  }

  lemma {:induction false} IdentityDropped(e: Expr)
    requires EliminateYn(e) == e && e.Bin?
    ensures EliminateYn(Bin(Or, Sym(No), e)) == e
  {
    var l, r := EliminateYn(Sym(No)), EliminateYn(e);
    assert l == Sym(No) && r == e;
    assert DropYn(Or, l, r) == r;
  }

  lemma {:induction false} PairStays(f: Expr, g: Expr)
    requires f.Sym? && g.Sym? && !IsYn(f) && !IsYn(g)
    ensures EliminateYn(Bin(Or, f, g)) == Bin(Or, f, g)
  {
    assert EliminateYn(f) == f && EliminateYn(g) == g;
  }

  lemma {:induction false} NotToItself(f: Expr, g: Expr)
    requires f.Sym? && g.Sym? && f.sym.Literal? && g.sym.Literal? && f != g
    ensures var a := Bin(Or, Bin(And, Sym(Yes), Sym(Yes)), Bin(Or, f, g)); !ExprEq(a, a)
  {
    var w, fg, no := Bin(And, Sym(Yes), Sym(Yes)), Bin(Or, f, g), Sym(No);
    var a, rest := Bin(Or, w, fg), Bin(Or, no, fg);
    AllYes();
    MeetsSelf(Or, w);
    IdentityPasses(Or, fg);
    ChainMeets(Or, w, a);
    assert CancelEq(Or, w, a) == (no, rest);
    assert Operands(Or, f) == [f] && Operands(Or, g) == [g] && Operands(Or, no) == [no];
    assert Operands(Or, fg) == [f] + [g];
    assert Operands(Or, rest) == [no] + ([f] + [g]);
    NoMatch(Or, f, rest);
    NoMatch(Or, g, rest);
    ChainAgainst(Or, f, g, rest);
    ChainAgainst(Or, w, fg, a);
    PairStays(f, g);
    IdentityDropped(fg);
    ChainEq(a, a);
  }

  /** "f" && "g" is not equal to itself. */
  lemma ExprEqNotReflexive()
    ensures var e := Bin(And, Sym(Literal("f")), Sym(Literal("g"))); !ExprEq(e, e)
  {
    var e := Bin(And, Sym(Literal("f")), Sym(Literal("g")));
    ExprEqReflexiveIff(e);
  }
}
