/** The two readings of an expression: with m as itself, and with m as y. */
module Lifting {
  import opened Expr

  /** Reading m as y only makes an m definite. */
  lemma {:induction false} LiftSettles(env: Env, e: Expr)
    ensures Settles(Eval(env, e), Eval(env.(lifted := true), e))
  {
    hide StrOf, TriOf;
    match e
    case Sym(s) => LiftSymbol(env, s);
    case Not(x) => LiftSettles(env, x);
    case Equal(a, b) =>
      LiftSymbol(env, a);
      LiftSymbol(env, b);
    case Unequal(a, b) =>
      LiftSymbol(env, a);
      LiftSymbol(env, b);
    case Bin(_, l, r) =>
      LiftSettles(env, l);
      LiftSettles(env, r);
  }

  lemma {:induction false} LiftSymbol(env: Env, s: Symbol)
    ensures Settles(TriOf(env, s), TriOf(env.(lifted := true), s))
    ensures StrOf(env.(lifted := true), s) == StrOf(env, s)
  {
    assert PlainTri(env.(lifted := true), s) == PlainTri(env, s);
  }
}
