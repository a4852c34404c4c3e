/** How menu_finalize finds that an entry belongs below the one before it. */
module Submenus {
  import opened Options
  import opened Expr
  import opened Transformation
  import opened DuplicatesLoop
  import opened Queries
  import opened Equality
  import opened Reflexivity
  import opened Canonical

  /** The condition that a visibility is not n, as menu_finalize prepares it. */
  ghost function Shown(visibility: Expr): Expr {
    WithoutDups(Transform(TransCompare(visibility, false, No)))
  }

  /** It is y exactly where the comparison with n answers no. */
  lemma {:induction false} ShownAnswer(env: Env, e: Expr)
    ensures Eval(env, Shown(e)) == Truth(!Answer(env, e, No))
  {
    TransCompareIff(env, e, false, No);
    TransformExact(env, TransCompare(e, false, No));
    WithoutDupsSettles(env, Transform(TransCompare(e, false, No)));
  }

  /** Cancelling leaves nothing of the parent's condition: the entry is put below the parent. */
  ghost predicate PutBelow(dep: Expr, parent: Expr) {
    var rest := EliminateEq(Shown(dep), Shown(parent));
    rest.Some? && rest.value.1 == Sym(Yes)
  }

  /** An entry put below another one is never shown without it, exactly if the visibility of the entry
      compares right with n wherever the parent is hidden; provided that the parent's does. Where
      an entry is shown without its parent one of the two compares wrong. */
  lemma {:induction false} SubmenuIff(env: Env, dep: Expr, parent: Expr)
    requires PutBelow(dep, parent)
    ensures ComparesRight(env, parent, No) ==>
              ((Eval(env, dep) != NO ==> Eval(env, parent) != NO) <==>
               (Eval(env, parent) == NO ==> ComparesRight(env, dep, No)))
    ensures Eval(env, dep) != NO && Eval(env, parent) == NO ==>
              !(ComparesRight(env, dep, No) && ComparesRight(env, parent, No))
  {
    EliminateEqImplies(env, Shown(dep), Shown(parent));
    ShownAnswer(env, dep);
    ShownAnswer(env, parent);
  }

  /** Boolean and tristate operands with no m below a negation are enough. */
  lemma {:induction false} SubmenuSound(env: Env, dep: Expr, parent: Expr)
    requires Comparable(env, dep) && Comparable(env, parent) && !env.lifted
    requires PutBelow(dep, parent)
    ensures Eval(env, dep) != NO ==> Eval(env, parent) != NO
  {
    ComparableRight(env, dep, No);
    ComparableRight(env, parent, No);
    SubmenuIff(env, dep, parent);
  }

  /** An entry is put below the one before it exactly if both conditions are conjunctions and every
      operand of the other's, as often as it occurs, is an operand of its own; or if the other is
      always shown. (Without y and n operands, and two string constants in one chain.) */
  lemma {:induction false} PutBelowIff(dep: Expr, parent: Expr)
    requires YnFree(Shown(dep)) && YnFree(Shown(parent)) && Tame(Shown(dep)) && Tame(Shown(parent))
    ensures var d, p := Shown(dep), Shown(parent);
            PutBelow(dep, parent) <==>
              if IsOp(And, d) && IsOp(And, p) then
                Parts(And, p) <= Parts(And, d) && Literals(And, p) == 0
              else p == Sym(Yes) && !d.Sym?
  {
    var d, p := Shown(dep), Shown(parent);
    if SameKind(d, p) && d.Bin? {
      EliminateEqIff(d, p);
      if d.op == Or {
        EliminateEqNot(d, p);
      }
    }
  }

  /** Where the visibility of an entry is the negation of the boolean symbol before it, and that one's
      the negation of another boolean symbol, the entry gets as far as the cancelling, and that has
      no result. */
  lemma {:induction false} SubmenuFault(a: Symbol, b: Symbol)
    requires IsBool(a) && IsBool(b)
    ensures Contains(Not(Sym(a)), a) && !Depends(Not(Sym(a)), a)
    ensures EliminateEq(Shown(Not(Sym(a))), Shown(Not(Sym(b)))) == None
  {
    assert Contains(Sym(a), a);
    ShownNegation(a);
    ShownNegation(b);
  }

  lemma {:induction false} ShownNegation(a: Symbol)
    requires IsBool(a)
    ensures Shown(Not(Sym(a))) == Not(Sym(a))
  {
    assert TransCompare(Sym(a), true, No) == Equal(a, No);
    assert TransCompare(Not(Sym(a)), false, No) == Equal(a, No);
    assert Transform(Equal(a, No)) == Not(Sym(a));
    assert Round(Not(Sym(a))) == (Not(Sym(a)), 0);
  }
}
