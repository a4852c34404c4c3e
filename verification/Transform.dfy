/** expr_transform: negations pushed to the symbols, comparisons of boolean symbols removed. */
module Transformation {
  import opened Expr

  /** NOT doubles, so distributing one over AND or OR still makes progress. */
  ghost function Weight(e: Expr): nat {
    match e
    case Sym(_) => 1
    case Not(x) => 2 * Weight(x)
    case Equal(_, _) => 2
    case Unequal(_, _) => 2
    case Bin(_, l, r) => 1 + Weight(l) + Weight(r)
  }

  predicate IsBool(s: Symbol) {
    s.Config? && s.kind.Boolean?
  }

  function Transform(e: Expr): (r: Expr)
    ensures Weight(r) <= Weight(e)
    decreases Weight(e), Size(e)
  {
    match e
    case Sym(_) => e
    case Equal(a, b) =>
      if !IsBool(a) then e
      else if b == No then Not(Sym(a))
      else if b == Mod then Sym(No)
      else if b == Yes then Sym(a)
      else e
    case Unequal(a, b) =>
      if !IsBool(a) then e
      else if b == No then Sym(a)
      else if b == Mod then Sym(Yes)
      else if b == Yes then Not(Sym(a))
      else e
    case Bin(op, l, r) => Bin(op, Transform(l), Transform(r))
    case Not(x) =>
      WeightPositive(x);
      Negated(Transform(x))
  }

  /** The negation of an expression that has been transformed. */
  function Negated(x: Expr): (r: Expr)
    ensures Weight(r) <= 2 * Weight(x)
    decreases 2 * Weight(x), 0
  {
    WeightPositive(x);
    match x
    case Not(y) => WeightPositive(y); Transform(y)
    case Equal(a, b) => Unequal(a, b)
    case Unequal(a, b) => Equal(a, b)
    case Bin(op, l, r) => NotDistributes(op, l, r); Transform(Bin(Dual(op), Not(l), Not(r)))
    case Sym(s) =>
      if s == Yes then Sym(No)
      else if s == Mod then Sym(Mod)
      else if s == No then Sym(Yes)
      else Not(Sym(s))
  }

  lemma WeightPositive(e: Expr)
    ensures Weight(e) >= 1
  {
  }

  lemma NotDistributes(op: Op, l: Expr, r: Expr)
    ensures Weight(Bin(Dual(op), Not(l), Not(r))) < Weight(Not(Bin(op, l, r)))
  {
    assert Weight(Not(l)) == 2 * Weight(l) && Weight(Not(r)) == 2 * Weight(r);
    assert Weight(Bin(op, l, r)) == 1 + Weight(l) + Weight(r);
  }

  lemma {:induction false} TransformExact(env: Env, e: Expr)
    ensures Eval(env, Transform(e)) == Eval(env, e)
    decreases Weight(e), Size(e)
  {
    match e
    case Bin(op, l, r) =>
      TransformExact(env, l);
      TransformExact(env, r);
    case Not(x) =>
      WeightPositive(x);
      TransformExact(env, x);
      NegatedExact(env, Transform(x));
    case _ => TransformLeafExact(env, e);
  }

  lemma {:induction false} NegatedExact(env: Env, x: Expr)
    ensures Eval(env, Negated(x)) == 2 - Eval(env, x)
    decreases 2 * Weight(x), 0
  {
    hide StrOf;
    WeightPositive(x);
    match x
    case Not(y) =>
      WeightPositive(y);
      TransformExact(env, y);
    case Bin(op, l, r) =>
      NotDistributes(op, l, r);
      TransformExact(env, Bin(Dual(op), Not(l), Not(r)));
    case _ =>
  }

  lemma {:induction false} TransformLeafExact(env: Env, e: Expr)
    requires !e.Bin? && !e.Not?
    ensures Eval(env, Transform(e)) == Eval(env, e)
  {
    if !e.Sym? && IsBool(e.lhs) {
      assert StrOf(env, e.lhs) == Letter(TriOf(env, e.lhs)) && TriOf(env, e.lhs) != MOD;
    }
  }

  /** NOT sits on symbols other than y, m and n only, and no boolean symbol is compared with one
      of these three. */
  predicate Normal(e: Expr) {
    match e
    case Sym(_) => true
    case Not(x) => x.Sym? && x.sym != Yes && x.sym != Mod && x.sym != No
    case Equal(a, b) => !(IsBool(a) && (b == Yes || b == Mod || b == No))
    case Unequal(a, b) => !(IsBool(a) && (b == Yes || b == Mod || b == No))
    case Bin(_, l, r) => Normal(l) && Normal(r)
  }

  lemma {:induction false} TransformNormal(e: Expr)
    ensures Normal(Transform(e))
    decreases Weight(e), Size(e)
  {
    match e
    case Bin(op, l, r) =>
      TransformNormal(l);
      TransformNormal(r);
    case Not(x) =>
      WeightPositive(x);
      TransformNormal(x);
      match Transform(x) {
        case Not(y) =>
          WeightPositive(y);
          TransformNormal(y);
        case Bin(op, l, r) =>
          NotDistributes(op, l, r);
          TransformNormal(Bin(Dual(op), Not(l), Not(r)));
        case _ =>
      }
    case _ =>
  }

  /** The normal expressions are exactly those that the transformation leaves alone; in
      particular it is idempotent. */
  lemma {:induction false} TransformFixpoint(e: Expr)
    ensures Transform(e) == e <==> Normal(e)
    ensures Transform(Transform(e)) == Transform(e)
  {
    TransformNormal(e);
    NormalStays(Transform(e));
    if Normal(e) {
      NormalStays(e);
    }
  }

  lemma {:induction false} NormalStays(e: Expr)
    requires Normal(e)
    ensures Transform(e) == e
  {
    if e.Bin? {
      NormalStays(e.left);
      NormalStays(e.right);
    }
  }
}
