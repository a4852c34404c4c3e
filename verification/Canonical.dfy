/** What expr_eq decides: equality up to the order and the grouping of AND and OR chains. */
module Canonical {
  import opened Options
  import opened Expr
  import opened ConstantElimination
  import opened Equality
  import opened Reflexivity

  /** An expression with its chains as multisets of operands. */
  datatype Canon = Leaf(e: Expr) | Negation(arg: Canon) | Chain(op: Op, parts: multiset<Canon>)

  ghost function CanonOf(e: Expr): Canon
    decreases Size(e), 1
  {
    match e
    case Not(x) => Negation(CanonOf(x))
    case Bin(op, _, _) => Chain(op, Parts(op, e))
    case _ => Leaf(e)
  }

  /** The operands of the op-chain at the root; those that cancelling has replaced do not count. */
  ghost function Parts(op: Op, e: Expr): multiset<Canon>
    decreases Size(e), if IsOp(op, e) then 0 else 2
  {
    if IsOp(op, e) then Parts(op, e.left) + Parts(op, e.right)
    else if e == Sym(Identity(op)) then multiset{}
    else multiset{CanonOf(e)}
  }

  /** From two multisets the same has been taken. */
  ghost predicate SameTaken(a: multiset<Canon>, b: multiset<Canon>, a': multiset<Canon>, b': multiset<Canon>) {
    a + b' == b + a' && a' <= a && b' <= b
  }

  lemma {:induction false} SameTakenTwice(
    l: multiset<Canon>, r: multiset<Canon>, b: multiset<Canon>,
    l': multiset<Canon>, r': multiset<Canon>, b1: multiset<Canon>, b2: multiset<Canon>)
    requires SameTaken(l, b, l', b1) && SameTaken(r, b1, r', b2)
    ensures SameTaken(l + r, b, l' + r', b2) && SameTaken(b, l + r, b2, l' + r')
  {
    forall c: Canon ensures (l + r + b2)[c] == (b + (l' + r'))[c] {
      assert (l + b1)[c] == (b + l')[c] && (r + b2)[c] == (b1 + r')[c];
    }
  }

  lemma {:induction false} PartsOf(op: Op, e: Expr)
    ensures IsOp(op, e) ==> Parts(op, e) == Parts(op, e.left) + Parts(op, e.right)
    ensures !IsOp(op, e) ==>
              Parts(op, e) == if e == Sym(Identity(op)) then multiset{} else multiset{CanonOf(e)}
  {
  }

  lemma {:induction false} CancelStep(op: Op, a: Expr, b: Expr)
    ensures IsOp(op, a) ==>
              var (l, b1) := CancelEq(op, a.left, b);
              var (r, b2) := CancelEq(op, a.right, b1);
              CancelEq(op, a, b) == (Bin(op, l, r), b2)
    ensures !IsOp(op, a) && IsOp(op, b) ==>
              var (a1, l) := CancelEq(op, a, b.left);
              var (a2, r) := CancelEq(op, a1, b.right);
              CancelEq(op, a, b) == (a2, Bin(op, l, r))
    ensures !IsOp(op, a) && !IsOp(op, b) ==>
              CancelEq(op, a, b) == (a, b) ||
              (CancelEq(op, a, b) == (Sym(Identity(op)), Sym(Identity(op))) && ExprEq(a, b))
  {
  }

  lemma {:induction false} FormParts(op: Op, e: Expr)
    requires CancelledForm(op, e)
    ensures IsOp(op, e) ==> CancelledForm(op, e.left) && CancelledForm(op, e.right) && Size(e) > Size(e.left)
                            && Size(e) > Size(e.right)
    ensures !IsOp(op, e) && e != Sym(Identity(op)) ==> YnFree(e) && !IsYn(e)
  {
  }

  /** Cancelling takes equal operands out of both chains, one for one. */
  lemma {:induction false} CancelTakesSame(op: Op, a: Expr, b: Expr)
    requires CancelledForm(op, a) && CancelledForm(op, b)
    ensures SameTaken(Parts(op, a), Parts(op, b), Parts(op, CancelEq(op, a, b).0), Parts(op, CancelEq(op, a, b).1))
    decreases Size(a) + Size(b), if IsOp(op, a) || IsOp(op, b) then 0 else 4
  {
    hide CancelEq, Parts, CanonOf, CancelledForm, ExprEq, SameTaken, Size;
    CancelStep(op, a, b);
    FormParts(op, a);
    FormParts(op, b);
    PartsOf(op, a);
    PartsOf(op, b);
    var (a', b') := CancelEq(op, a, b);
    PartsOf(op, a');
    PartsOf(op, b');
    if IsOp(op, a) {
      var (l, b1) := CancelEq(op, a.left, b);
      var (r, b2) := CancelEq(op, a.right, b1);
      CancelEqCancels(op, a.left, b);
      CancelTakesSame(op, a.left, b);
      CancelTakesSame(op, a.right, b1);
      SameTakenTwice(Parts(op, a.left), Parts(op, a.right), Parts(op, b), Parts(op, l), Parts(op, r),
                     Parts(op, b1), Parts(op, b2));
    } else if IsOp(op, b) {
      var (a1, l) := CancelEq(op, a, b.left);
      var (a2, r) := CancelEq(op, a1, b.right);
      CancelEqCancels(op, a, b.left);
      CancelTakesSame(op, a, b.left);
      CancelTakesSame(op, a1, b.right);
      SameTakenSym(Parts(op, a), Parts(op, b.left), Parts(op, a1), Parts(op, l));
      SameTakenSym(Parts(op, a1), Parts(op, b.right), Parts(op, a2), Parts(op, r));
      SameTakenTwice(Parts(op, b.left), Parts(op, b.right), Parts(op, a), Parts(op, l), Parts(op, r),
                     Parts(op, a1), Parts(op, a2));
    } else {
      OperandsTaken(op, a, b);
    }
  }

  lemma {:induction false} SameTakenSym(
    a: multiset<Canon>, b: multiset<Canon>, a': multiset<Canon>, b': multiset<Canon>)
    requires SameTaken(a, b, a', b')
    ensures SameTaken(b, a, b', a')
  {
  }

  lemma {:induction false} OperandsTaken(op: Op, a: Expr, b: Expr)
    requires CancelledForm(op, a) && CancelledForm(op, b) && !IsOp(op, a) && !IsOp(op, b)
    ensures SameTaken(Parts(op, a), Parts(op, b), Parts(op, CancelEq(op, a, b).0), Parts(op, CancelEq(op, a, b).1))
    decreases Size(a) + Size(b), 3
  {
    hide CancelEq, ExprEq, CanonOf, Size;
    CancelStep(op, a, b);
    if ExprEq(a, b) {
      if IsYn(a) || IsYn(b) {
        SameYn(a, b);
      } else {
        EqualIsSame(a, b);
      }
    }
  }

  lemma {:induction false} SameYn(a: Expr, b: Expr)
    requires ExprEq(a, b) && (IsYn(a) || IsYn(b))
    ensures a == b
  {
  }

  lemma {:induction false} EqualIsSame(a: Expr, b: Expr)
    requires ExprEq(a, b) && YnFree(a) && YnFree(b)
    ensures CanonOf(a) == CanonOf(b)
    decreases Size(a) + Size(b), 2
  {
    if a.Not? {
      EqualIsSame(a.arg, b.arg);
    } else if a.Bin? {
      EqualChains(a, b);
    }
  }

  lemma {:induction false} EqualChains(a: Expr, b: Expr)
    requires ExprEq(a, b) && YnFree(a) && YnFree(b) && a.Bin? && IsOp(a.op, b)
    ensures Parts(a.op, a) == Parts(a.op, b)
    decreases Size(a) + Size(b), 1
  {
    hide CancelEq, ExprEq, Parts, CanonOf, Size;
    var (a', b') := CancelEq(a.op, a, b);
    YnFreeChain(a.op, a);
    YnFreeChain(a.op, b);
    CancelEqCancels(a.op, a, b);
    CancelTakesSame(a.op, a, b);
    Collapsed(a.op, a');
    Collapsed(a.op, b');
    ChainEq(a, b);
    assert Parts(a.op, a') == Parts(a.op, b');
    EqualBefore(Parts(a.op, a), Parts(a.op, b), Parts(a.op, a'), Parts(a.op, b'));
  }

  lemma {:induction false} EqualBefore(
    a: multiset<Canon>, b: multiset<Canon>, a': multiset<Canon>, b': multiset<Canon>)
    requires SameTaken(a, b, a', b')
    ensures a == b <==> a' == b'
  {
    assert forall c: Canon :: a[c] + b'[c] == (a + b')[c] == (b + a')[c] == b[c] + a'[c];
  }

  /** What expr_eliminate_yn leaves of a chain with no, one or more operands that count. */
  ghost predicate CollapsedTo(op: Op, parts: multiset<Canon>, e: Expr) {
    && (|parts| == 0 <==> e == Sym(Identity(op)))
    && (|parts| == 1 ==> parts == multiset{CanonOf(e)} && !IsYn(e))
    && (|parts| > 1 ==> e.Bin?)
  }

  lemma {:induction false} Collapsed(op: Op, e: Expr)
    requires CancelledForm(op, e)
    ensures CollapsedTo(op, Parts(op, e), EliminateYn(e))
  {
    hide CanonOf, Size, CollapsedTo, Parts, DropYn;
    PartsOf(op, e);
    if IsOp(op, e) {
      Collapsed(op, e.left);
      Collapsed(op, e.right);
      CollapsedTwo(op, Parts(op, e.left), Parts(op, e.right), EliminateYn(e.left), EliminateYn(e.right));
    } else {
      if e != Sym(Identity(op)) {
        YnFreeChain(op, e);
        EliminateYnShrinks(e);
      }
      CollapsedOne(op, e);
    }
  }

  lemma {:induction false} CollapsedOne(op: Op, e: Expr)
    requires !IsYn(e) || e == Sym(Identity(op))
    ensures CollapsedTo(op, if e == Sym(Identity(op)) then multiset{} else multiset{CanonOf(e)}, e)
  {
  }

  lemma {:induction false} CollapsedTwo(op: Op, p: multiset<Canon>, q: multiset<Canon>, l: Expr, r: Expr)
    requires CollapsedTo(op, p, l) && CollapsedTo(op, q, r)
    ensures CollapsedTo(op, p + q, DropYn(op, l, r))
  {
    if |p| == 0 {
      assert p + q == q;
    } else if |q| == 0 {
      assert p + q == p;
    }
  }

  // ---- The other way round ----

  ghost predicate IsLiteral(c: Canon) {
    c.Leaf? && c.e.Sym? && c.e.sym.Literal?
  }

  /** Only string constants, which are not cancelled, are in both. */
  ghost predicate Separate(p: multiset<Canon>, q: multiset<Canon>) {
    forall c <- p :: c in q ==> IsLiteral(c)
  }

  lemma {:induction false} CancelledKeeps(op: Op, e0: Expr, e: Expr)
    requires Cancelled(op, e0, e)
    ensures TameChain(op, e0) ==> TameChain(op, e)
    ensures Literals(op, e) == Literals(op, e0)
  {
    if IsOp(op, e0) {
      CancelledKeeps(op, e0.left, e.left);
      CancelledKeeps(op, e0.right, e.right);
    }
  }

  lemma {:induction false} TameOnChain(op: Op, e: Expr)
    requires Tame(e)
    ensures TameChain(op, e)
  {
    if IsOp(op, e) {
      TameOnChain(op, e.left);
      TameOnChain(op, e.right);
    }
  }

  lemma {:induction false} SeparateBoth(
    l: multiset<Canon>, r: multiset<Canon>, b1: multiset<Canon>, b2: multiset<Canon>)
    requires Separate(l, b1) && Separate(r, b2) && b2 <= b1
    ensures Separate(l + r, b2) && Separate(b2, l + r)
  {
  }

  lemma {:induction false} SeparateSym(p: multiset<Canon>, q: multiset<Canon>)
    requires Separate(p, q)
    ensures Separate(q, p)
  {
  }

  lemma {:induction false} Taken(op: Op, a: Expr, b: Expr)
    requires CancelledForm(op, a) && CancelledForm(op, b) && TameChain(op, a) && TameChain(op, b)
    ensures var (a', b') := CancelEq(op, a, b);
            && CancelledForm(op, a') && CancelledForm(op, b') && TameChain(op, a') && TameChain(op, b')
            && Parts(op, a') <= Parts(op, a) && Parts(op, b') <= Parts(op, b)
  {
    CancelEqCancels(op, a, b);
    CancelTakesSame(op, a, b);
    CancelledKeeps(op, a, CancelEq(op, a, b).0);
    CancelledKeeps(op, b, CancelEq(op, a, b).1);
  }

  lemma {:induction false} TameParts(op: Op, e: Expr)
    requires TameChain(op, e)
    ensures IsOp(op, e) ==> TameChain(op, e.left) && TameChain(op, e.right)
    ensures !IsOp(op, e) ==> Tame(e)
  {
  }

  /** Cancelling leaves no two equal operands, but for string constants. */
  lemma {:induction false} CancelSeparates(op: Op, a: Expr, b: Expr)
    requires CancelledForm(op, a) && CancelledForm(op, b) && TameChain(op, a) && TameChain(op, b)
    ensures Separate(Parts(op, CancelEq(op, a, b).0), Parts(op, CancelEq(op, a, b).1))
    decreases Size(a) + Size(b), if IsOp(op, a) || IsOp(op, b) then 0 else 4
  {
    hide CancelEq, Parts, CanonOf, CancelledForm, TameChain, ExprEq, Separate, Size;
    CancelStep(op, a, b);
    FormParts(op, a);
    FormParts(op, b);
    TameParts(op, a);
    TameParts(op, b);
    var (a', b') := CancelEq(op, a, b);
    PartsOf(op, a');
    PartsOf(op, b');
    if IsOp(op, a) {
      var (l, b1) := CancelEq(op, a.left, b);
      var (r, b2) := CancelEq(op, a.right, b1);
      Taken(op, a.left, b);
      Taken(op, a.right, b1);
      CancelSeparates(op, a.left, b);
      CancelSeparates(op, a.right, b1);
      SeparateBoth(Parts(op, l), Parts(op, r), Parts(op, b1), Parts(op, b2));
    } else if IsOp(op, b) {
      var (a1, l) := CancelEq(op, a, b.left);
      var (a2, r) := CancelEq(op, a1, b.right);
      Taken(op, a, b.left);
      Taken(op, a1, b.right);
      CancelSeparates(op, a, b.left);
      CancelSeparates(op, a1, b.right);
      SeparateSym(Parts(op, a1), Parts(op, l));
      SeparateSym(Parts(op, a2), Parts(op, r));
      SeparateBoth(Parts(op, l), Parts(op, r), Parts(op, a1), Parts(op, a2));
    } else {
      OperandsSeparate(op, a, b);
    }
  }

  lemma {:induction false} OperandsSeparate(op: Op, a: Expr, b: Expr)
    requires CancelledForm(op, a) && CancelledForm(op, b) && Tame(a) && Tame(b) && !IsOp(op, a) && !IsOp(op, b)
    ensures Separate(Parts(op, CancelEq(op, a, b).0), Parts(op, CancelEq(op, a, b).1))
    decreases Size(a) + Size(b), 3
  {
    hide ExprEq, Size;
    var id := Sym(Identity(op));
    if a != id && b != id && CanonOf(a) == CanonOf(b) {
      SameIsEqual(a, b);
      if a.Sym? {
        assert a == b;
      }
    }
  }

  lemma {:induction false} SameIsEqual(a: Expr, b: Expr)
    requires YnFree(a) && YnFree(b) && Tame(a) && Tame(b) && CanonOf(a) == CanonOf(b)
    ensures ExprEq(a, b)
    decreases Size(a) + Size(b), 2
  {
    if a.Not? {
      SameIsEqual(a.arg, b.arg);
    } else if a.Bin? {
      SameChains(a, b);
    }
  }

  lemma {:induction false} SameChains(a: Expr, b: Expr)
    requires YnFree(a) && YnFree(b) && Tame(a) && Tame(b) && a.Bin? && IsOp(a.op, b)
    requires Parts(a.op, a) == Parts(a.op, b)
    ensures ExprEq(a, b)
    decreases Size(a) + Size(b), 1
  {
    hide CancelEq, ExprEq, Parts, CanonOf, Size, CollapsedTo, EliminateYn;
    var op := a.op;
    var (a', b') := CancelEq(op, a, b);
    YnFreeChain(op, a);
    YnFreeChain(op, b);
    TameOnChain(op, a);
    TameOnChain(op, b);
    CancelEqCancels(op, a, b);
    CancelTakesSame(op, a, b);
    CancelSeparates(op, a, b);
    CancelledKeeps(op, a, a');
    EqualBefore(Parts(op, a), Parts(op, b), Parts(op, a'), Parts(op, b'));
    LiteralParts(op, a');
    Collapsed(op, a');
    Collapsed(op, b');
    OneLiteral(op, Parts(op, a'), EliminateYn(a'), EliminateYn(b'));
    ChainEq(a, b);
  }

  lemma {:induction false} LiteralParts(op: Op, e: Expr)
    requires forall c <- Parts(op, e) :: IsLiteral(c)
    ensures |Parts(op, e)| == Literals(op, e)
  {
    if IsOp(op, e) {
      LiteralParts(op, e.left);
      LiteralParts(op, e.right);
    } else if e != Sym(Identity(op)) {
      assert CanonOf(e) in Parts(op, e);
    }
  }

  lemma {:induction false} OneLiteral(op: Op, p: multiset<Canon>, a: Expr, b: Expr)
    requires CollapsedTo(op, p, a) && CollapsedTo(op, p, b) && |p| <= 1 && forall c <- p :: IsLiteral(c)
    ensures a.Sym? && a == b
  {
    if |p| == 1 {
      assert CanonOf(a) in p && CanonOf(b) in p;
      assert CanonOf(b) in multiset{CanonOf(a)};
    }
  }

  /** Without y and n operands two expressions are equal exactly if they have the same operands up
      to order and grouping, at every level, and no chain of theirs has two string constants. */
  lemma {:induction false} ExprEqIff(a: Expr, b: Expr)
    requires YnFree(a) && YnFree(b)
    ensures ExprEq(a, b) <==> CanonOf(a) == CanonOf(b) && Tame(a) && Tame(b)
  {
    if ExprEq(a, b) {
      EqualIsSame(a, b);
      EqualIsTame(a, b);
    } else if CanonOf(a) == CanonOf(b) && Tame(a) && Tame(b) {
      SameIsEqual(a, b);
    }
  }

  lemma {:induction false} NoLiteralParts(op: Op, e: Expr)
    requires Literals(op, e) == 0
    ensures forall c <- Parts(op, e) :: !IsLiteral(c)
  {
    if IsOp(op, e) {
      NoLiteralParts(op, e.left);
      NoLiteralParts(op, e.right);
    }
  }

  lemma {:induction false} AllTaken(
    a: multiset<Canon>, b: multiset<Canon>, a': multiset<Canon>, b': multiset<Canon>)
    requires SameTaken(a, b, a', b') && Separate(a', b')
    ensures b' == multiset{} ==> b <= a
    ensures b <= a && (forall c <- b :: !IsLiteral(c)) ==> b' == multiset{}
  {
    assert forall c: Canon :: a[c] + b'[c] == (a + b')[c] == (b + a')[c] == b[c] + a'[c];
  }

  /** expr_eliminate_eq leaves nothing of the second chain exactly if its operands, as often as they
      occur, are operands of the first one, and none of them is a string constant. */
  lemma {:induction false} EliminateEqIff(a: Expr, b: Expr)
    requires YnFree(a) && YnFree(b) && Tame(a) && Tame(b) && a.Bin? && IsOp(a.op, b)
    ensures EliminateEq(a, b).value.1 == Sym(Identity(a.op)) <==>
              Parts(a.op, b) <= Parts(a.op, a) && Literals(a.op, b) == 0
  {
    hide CancelEq, ExprEq, Parts, CanonOf, Size, EliminateYn;
    var op := a.op;
    var (a', b') := CancelEq(op, a, b);
    YnFreeChain(op, a);
    YnFreeChain(op, b);
    TameOnChain(op, a);
    TameOnChain(op, b);
    CancelEqCancels(op, a, b);
    CancelTakesSame(op, a, b);
    CancelSeparates(op, a, b);
    CancelledKeeps(op, b, b');
    Collapsed(op, b');
    AllTaken(Parts(op, a), Parts(op, b), Parts(op, a'), Parts(op, b'));
    if Literals(op, b) == 0 {
      NoLiteralParts(op, b);
    }
    if Parts(op, b') == multiset{} {
      LiteralParts(op, b');
    }
  }

  /** It never leaves the constant that decides the chain. */
  lemma {:induction false} EliminateEqNot(a: Expr, b: Expr)
    requires YnFree(a) && YnFree(b) && a.Bin? && IsOp(a.op, b)
    ensures EliminateEq(a, b).value.1 != Sym(Absorbing(a.op))
  {
    hide CancelEq, ExprEq, Parts, CanonOf, Size, EliminateYn;
    YnFreeChain(a.op, a);
    YnFreeChain(a.op, b);
    CancelEqCancels(a.op, a, b);
    Collapsed(a.op, CancelEq(a.op, a, b).1);
  }
}
