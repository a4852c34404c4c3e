/** expr_trans_bool, expr_trans_compare, expr_contains_symbol and expr_depends_symbol. */
module Queries {
  import opened Expr
  import opened Chains
  import opened Transformation

  // ---- expr_trans_bool ----

  /** FOO!=n becomes FOO, for tristate FOO. */
  function TransBool(e: Expr): Expr {
    match e
    case Bin(op, l, r) => Bin(op, TransBool(l), TransBool(r))
    case Not(x) => Not(TransBool(x))
    case Unequal(s, t) => if s.Config? && s.kind.Tristated? && t == No then Sym(s) else e
    case _ => e
  }

  /** A tristate symbol compared with n by !=. */
  predicate IsBoolTest(e: Expr) {
    e.Unequal? && e.lhs.Config? && e.lhs.kind.Tristated? && e.rhs == No
  }

  /** No such test is left anywhere, and an expression without one is not changed. */
  lemma {:induction false} TransBoolTests(e: Expr)
    ensures forall x <- Subexpressions(TransBool(e)) :: !IsBoolTest(x)
    ensures TransBool(e) == e <==> forall x <- Subexpressions(e) :: !IsBoolTest(x)
  {
    match e
    case Bin(_, l, r) =>
      TransBoolTests(l);
      TransBoolTests(r);
    case Not(x) => TransBoolTests(x);
    case _ => assert e in Subexpressions(e);
  }

  /** On the form that expr_transform produces the value is never raised, and whether it is n
      does not change. */
  lemma {:induction false} TransBoolKeepsNo(env: Env, e: Expr)
    requires Normal(e)
    ensures Eval(env, TransBool(e)) <= Eval(env, e)
    ensures Eval(env, TransBool(e)) == NO <==> Eval(env, e) == NO
  {
    if e.Bin? {
      TransBoolKeepsNo(env, e.left);
      TransBoolKeepsNo(env, e.right);
    }
  }

  /** Read as a symbol reads it that cannot be m, the value is kept exactly. */
  lemma {:induction false} TransBoolLifted(env: Env, e: Expr)
    requires Normal(e) && env.lifted
    ensures Eval(env, TransBool(e)) == Eval(env, e)
  {
    if e.Bin? {
      TransBoolLifted(env, e.left);
      TransBoolLifted(env, e.right);
    }
  }

  lemma {:induction false} TransBoolNormal(e: Expr)
    requires Normal(e)
    ensures Normal(TransBool(e))
  {
    if e.Bin? {
      TransBoolNormal(e.left);
      TransBoolNormal(e.right);
    }
  }

  /** Below a negation both fail, exactly when the symbol is m. */
  lemma TransBoolBelowNot(env: Env, s: Symbol)
    requires s.Config? && s.kind.Tristated?
    ensures var e := Not(Unequal(s, No));
            && (Eval(env, TransBool(e)) <= Eval(env, e) <==> TriOf(env, s) != MOD)
            && ((Eval(env, TransBool(e)) == NO <==> Eval(env, e) == NO) <==> TriOf(env, s) != MOD)
  {
    assert TransBool(Unequal(s, No)) == Sym(s);
    assert Eval(env, Unequal(s, No)) == Truth(TriOf(env, s) != NO);
  }

  // ---- expr_trans_compare ----

  /** The comparison of e with the constant s, as an expression. */
  function TransCompare(e: Expr, equal: bool, s: Symbol): Expr
    requires s == Yes || s == Mod || s == No
  {
    match e
    case Bin(op, l, r) =>
      var l', r' := TransCompare(l, true, s), TransCompare(r, true, s);
      var compared := if s == Yes then Bin(op, l', r') else if s == No then Bin(Dual(op), l', r') else e;
      if equal then compared else Not(compared)
    case Not(x) => TransCompare(x, !equal, s)
    case Sym(t) => if equal then Equal(t, s) else Unequal(t, s)
    case _ =>
      if s == Mod then Sym(if equal then No else Yes)
      else if equal == (s == Yes) then e
      else Not(e)
  }

  ghost predicate Is(env: Env, e: Expr, s: Symbol) {
    Eval(env, e) == TriOf(env, s)
  }

  /** How the comparisons of two operands with s are put together. */
  predicate Both(op: Op, s: Symbol, a: bool, b: bool) {
    if (op == And) == (s == Yes) then a && b else a || b
  }

  /** Comparing e with s gives the right answer. A symbol is compared by its string; a negation turns
      right into wrong exactly where what it negates is m; two wrong answers may make a right one. */
  ghost predicate ComparesRight(env: Env, e: Expr, s: Symbol) {
    match e
    case Sym(t) => (StrOf(env, t) == StrOf(env, s)) == (TriOf(env, t) == TriOf(env, s))
    case Not(x) => ComparesRight(env, x, s) == (Eval(env, x) != MOD)
    case Bin(op, l, r) =>
      Both(op, s, Is(env, l, s) == ComparesRight(env, l, s), Is(env, r, s) == ComparesRight(env, r, s))
      == Both(op, s, Is(env, l, s), Is(env, r, s))
    case _ => true
  }

  lemma {:induction false} TransCompareNegated(env: Env, e: Expr, s: Symbol)
    requires s == Yes || s == No
    ensures Eval(env, TransCompare(e, false, s)) == 2 - Eval(env, TransCompare(e, true, s))
  {
    match e
    case Not(x) => TransCompareNegated(env, x, s);
    case _ =>
  }

  /** What the comparison answers. */
  ghost predicate Answer(env: Env, e: Expr, s: Symbol) {
    Is(env, e, s) == ComparesRight(env, e, s)
  }

  lemma {:induction false} TransCompareAnswer(env: Env, e: Expr, s: Symbol)
    requires s == Yes || s == No
    ensures Eval(env, TransCompare(e, true, s)) == Truth(Answer(env, e, s))
  {
    match e
    case Bin(op, l, r) =>
      TransCompareAnswer(env, l, s);
      TransCompareAnswer(env, r, s);
      AnswerBin(env, op, l, r, s);
    case Not(x) =>
      TransCompareAnswer(env, x, s);
      TransCompareNegated(env, x, s);
      assert Is(env, e, s) == (Eval(env, x) != MOD && !Is(env, x, s));
    case _ =>
  }

  lemma {:induction false} AnswerBin(env: Env, op: Op, l: Expr, r: Expr, s: Symbol)
    requires s == Yes || s == No
    ensures Is(env, Bin(op, l, r), s) == Both(op, s, Is(env, l, s), Is(env, r, s))
    ensures Answer(env, Bin(op, l, r), s) == Both(op, s, Answer(env, l, s), Answer(env, r, s))
  {
    var e := Bin(op, l, r);
    assert Is(env, e, s) == Both(op, s, Is(env, l, s), Is(env, r, s));
    assert ComparesRight(env, e, s) ==
        (Both(op, s, Answer(env, l, s), Answer(env, r, s)) == Both(op, s, Is(env, l, s), Is(env, r, s)));
  }

  /** For every expression the comparison is y or n, and it is the right one of them exactly under
      that condition. */
  lemma {:induction false} TransCompareIff(env: Env, e: Expr, equal: bool, s: Symbol)
    requires s == Yes || s == No
    ensures Eval(env, TransCompare(e, equal, s)) == Truth(Answer(env, e, s) == equal)
    ensures Eval(env, TransCompare(e, equal, s)) == Truth(Is(env, e, s) == equal) <==> ComparesRight(env, e, s)
  {
    TransCompareAnswer(env, e, s);
    TransCompareNegated(env, e, s);
  }

  /** Every operand symbol is boolean, tristate or one of y, m and n, and no negated expression is m. */
  ghost predicate Comparable(env: Env, e: Expr) {
    match e
    case Sym(s) =>
      s == Yes || s == Mod || s == No || (s.Config? && (s.kind.Boolean? || s.kind.Tristated?))
    case Not(x) => Comparable(env, x) && Eval(env, x) != MOD
    case Bin(_, l, r) => Comparable(env, l) && Comparable(env, r)
    case _ => true
  }

  /** That is enough. */
  lemma {:induction false} TransCompareMeaning(env: Env, e: Expr, equal: bool, s: Symbol)
    requires s == Yes || s == No
    requires Comparable(env, e) && !env.lifted
    ensures Eval(env, TransCompare(e, equal, s)) == Truth((Eval(env, e) == TriOf(env, s)) == equal)
  {
    ComparableRight(env, e, s);
    TransCompareIff(env, e, equal, s);
  }

  lemma {:induction false} ComparableRight(env: Env, e: Expr, s: Symbol)
    requires s == Yes || s == No
    requires Comparable(env, e) && !env.lifted
    ensures ComparesRight(env, e, s)
  {
    match e
    case Bin(op, l, r) =>
      ComparableRight(env, l, s);
      ComparableRight(env, r, s);
    case Not(x) => ComparableRight(env, x, s);
    case _ =>
  }

  /** Through a negation the comparison is right exactly when it is right and the negated expression
      is not m, or wrong and that is m. */
  lemma {:induction false} TransCompareNot(env: Env, x: Expr, equal: bool, s: Symbol)
    requires s == Yes || s == No
    ensures Eval(env, TransCompare(Not(x), equal, s)) == Truth(Is(env, Not(x), s) == equal) <==>
              (Eval(env, TransCompare(x, equal, s)) == Truth(Is(env, x, s) == equal) <==> Eval(env, x) != MOD)
  {
    TransCompareIff(env, x, equal, s);
    TransCompareIff(env, Not(x), equal, s);
  }

  /** A symbol without a letter, whose value is n: the comparison with n is right exactly if its text
      happens to be "n", and the one with y exactly if it is not "y". */
  lemma {:induction false} TransCompareText(env: Env, t: Symbol, equal: bool)
    requires TriOf(env, t) == NO
    ensures Eval(env, TransCompare(Sym(t), equal, No)) == Truth(equal) <==> StrOf(env, t) == "n"
    ensures Eval(env, TransCompare(Sym(t), equal, Yes)) == Truth(!equal) <==> StrOf(env, t) != "y"
  {
    TransCompareIff(env, Sym(t), equal, No);
    TransCompareIff(env, Sym(t), equal, Yes);
  }

  /** An AND or OR, below any number of negations. */
  predicate IsChain(e: Expr) {
    if e.Not? then IsChain(e.arg) else e.Bin?
  }

  /** When comparing with m gives the right answer: AND and OR are left as they are, and a negation
      is taken to swap m with the other two values, which it does not. */
  ghost predicate ComparesRightWithMod(env: Env, e: Expr) {
    match e
    case Sym(t) => (StrOf(env, t) == "m") == (TriOf(env, t) == MOD)
    case Not(x) => if IsChain(x) then Eval(env, e) == NO else !ComparesRightWithMod(env, x)
    case Bin(_, _, _) => Eval(env, e) == NO
    case _ => true
  }

  lemma {:induction false} TransCompareModNegated(env: Env, e: Expr)
    ensures Eval(env, TransCompare(e, false, Mod)) == 2 - Eval(env, TransCompare(e, true, Mod))
    ensures IsChain(e) ==> Eval(env, TransCompare(e, true, Mod)) == Eval(env, e)
    ensures !IsChain(e) ==> Eval(env, TransCompare(e, true, Mod)) != MOD
  {
    if e.Not? {
      TransCompareModNegated(env, e.arg);
    }
  }

  lemma {:induction false} TransCompareMod(env: Env, e: Expr, equal: bool)
    ensures Eval(env, TransCompare(e, equal, Mod)) == Truth(Is(env, e, Mod) == equal) <==>
              ComparesRightWithMod(env, e)
  {
    TransCompareModNegated(env, e);
    if e.Not? && !IsChain(e) {
      TransCompareMod(env, e.arg, !equal);
      TransCompareModNegated(env, e.arg);
      assert Is(env, e, Mod) == Is(env, e.arg, Mod);
    }
  }

  // ---- expr_contains_symbol, expr_depends_symbol ----

  predicate Contains(e: Expr, s: Symbol) {
    match e
    case Bin(_, l, r) => Contains(l, s) || Contains(r, s)
    case Sym(t) => t == s
    case Equal(a, b) => a == s || b == s
    case Unequal(a, b) => a == s || b == s
    case Not(x) => Contains(x, s)
  }

  predicate Depends(e: Expr, s: Symbol) {
    match e
    case Bin(op, l, r) => op == And && (Depends(l, s) || Depends(r, s))
    case Sym(t) => t == s
    case Equal(a, b) => a == s && (b == Yes || b == Mod)
    case Unequal(a, b) => a == s && b == No
    case Not(_) => false
  }

  lemma {:induction false} ContainsIff(e: Expr, s: Symbol)
    ensures Contains(e, s) <==> s in SymbolsOf(e)
  {
    match e
    case Bin(_, l, r) =>
      ContainsIff(l, s);
      ContainsIff(r, s);
    case Not(x) => ContainsIff(x, s);
    case _ =>
  }

  /** The symbol itself, or a comparison of it that is n when it is n. */
  predicate Demands(e: Expr, s: Symbol) {
    e == Sym(s) || e == Equal(s, Yes) || e == Equal(s, Mod) || e == Unequal(s, No)
  }

  /** Depending on a symbol is having it, or such a comparison, among the operands of the AND chain. */
  lemma {:induction false} DependsIff(e: Expr, s: Symbol)
    ensures Depends(e, s) <==> exists x <- Operands(And, e) :: Demands(x, s)
  {
    if IsOp(And, e) {
      DependsIff(e.left, s);
      DependsIff(e.right, s);
      assert forall x :: x in Operands(And, e) <==> x in Operands(And, e.left) || x in Operands(And, e.right);
    } else {
      assert e in Operands(And, e) && Demands(e, s) == Depends(e, s);
    }
  }

  ghost predicate AgreeExcept(env: Env, env': Env, s: Symbol) {
    forall t: Symbol :: t != s ==> TriOf(env, t) == TriOf(env', t) && StrOf(env, t) == StrOf(env', t)
  }

  /** An expression that does not contain s has a value independent of s. */
  lemma {:induction false} ContainsSound(env: Env, env': Env, e: Expr, s: Symbol)
    requires !Contains(e, s) && AgreeExcept(env, env', s)
    ensures Eval(env, e) == Eval(env', e)
  {
    match e
    case Bin(_, l, r) =>
      ContainsSound(env, env', l, s);
      ContainsSound(env, env', r, s);
    case Not(x) => ContainsSound(env, env', x, s);
    case _ =>
  }

  /** An expression that depends on s contains it, and is n whenever s is n. */
  lemma {:induction false} DependsForces(env: Env, e: Expr, s: Symbol)
    requires Depends(e, s)
    ensures Contains(e, s)
    ensures TriOf(env, s) == NO && StrOf(env, s) == "n" ==> Eval(env, e) == NO
  {
    if e.Bin? {
      if Depends(e.left, s) {
        DependsForces(env, e.left, s);
      } else {
        DependsForces(env, e.right, s);
      }
    }
  }
}
