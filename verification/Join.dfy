/** expr_join_or and expr_join_and: merging two operands of a chain into one. */
module Joining {
  import opened Options
  import opened Expr
  import opened Equality

  function Target(e: Expr): Symbol
    requires e.Sym? || e.Equal? || e.Unequal?
  {
    if e.Sym? then e.sym else e.lhs
  }

  predicate IsTest(e: Expr) {
    e.Sym? || e.Equal? || e.Unequal?
  }

  /** The symbol that both operands are about, if each is a symbol or a comparison, possibly
      negated (on the right a negated symbol only), and the symbol is boolean or tristate. */
  function CommonSymbol(a: Expr, b: Expr): Option<Symbol> {
    if !(IsTest(a) || (a.Not? && IsTest(a.arg))) then None
    else if !(IsTest(b) || (b.Not? && b.arg.Sym?)) then None
    else
      var s1 := if a.Not? then Target(a.arg) else Target(a);
      var s2 := if b.Not? then b.arg.sym else Target(b);
      if s1 == s2 && s1.Config? && (s1.kind.Boolean? || s1.kind.Tristated?) then Some(s1) else None
  }

  /** One operand is a comparison (or not) of the given form with x, the other with y. */
  predicate EqualTo(a: Expr, b: Expr, x: Symbol, y: Symbol) {
    a.Equal? && b.Equal? && ((a.rhs == x && b.rhs == y) || (a.rhs == y && b.rhs == x))
  }

  predicate UnequalTo(a: Expr, b: Expr, x: Symbol, y: Symbol) {
    a.Unequal? && b.Unequal? && ((a.rhs == x && b.rhs == y) || (a.rhs == y && b.rhs == x))
  }

  function JoinOr(a: Expr, b: Expr): Option<Expr> {
    if ExprEq(a, b) then Some(a)
    else
      var c := CommonSymbol(a, b);
      if c.None? then None
      else
        var s := c.value;
        if s.kind.Tristated? && EqualTo(a, b, Yes, Mod) then Some(Unequal(s, No))
        else if s.kind.Tristated? && EqualTo(a, b, Yes, No) then Some(Unequal(s, Mod))
        else if s.kind.Tristated? && EqualTo(a, b, Mod, No) then Some(Unequal(s, Yes))
        else if s.kind.Boolean? &&
                ((a.Not? && a.arg.Sym? && b.Sym?) || (b.Not? && b.arg.Sym? && a.Sym?)) then Some(Sym(Yes))
        else None
  }

  function JoinAnd(a: Expr, b: Expr): Option<Expr> {
    if ExprEq(a, b) then Some(a)
    else
      var c := CommonSymbol(a, b);
      if c.None? then None
      else
        var s := c.value;
        if (a.Sym? && b.Equal? && b.rhs == Yes) || (b.Sym? && a.Equal? && a.rhs == Yes) then
          Some(Equal(s, Yes))
        else if (a.Sym? && b.Unequal? && b.rhs == No) || (b.Sym? && a.Unequal? && a.rhs == No) then
          Some(Sym(s))
        else if !s.kind.Tristated? then None
        else if a.Equal? && b.Unequal? && IsConst(b.rhs) && IsConst(a.rhs) then
          Some(if a.rhs != b.rhs then Equal(s, a.rhs) else Sym(No))
        else if a.Unequal? && b.Equal? && IsConst(a.rhs) && IsConst(b.rhs) then
          Some(if b.rhs != a.rhs then Equal(s, b.rhs) else Sym(No))
        else if UnequalTo(a, b, Yes, No) then Some(Equal(s, Mod))
        else if UnequalTo(a, b, Yes, Mod) then Some(Equal(s, No))
        else if UnequalTo(a, b, Mod, No) then Some(Equal(s, Yes))
        else None
  }

  function Join(op: Op, a: Expr, b: Expr): Option<Expr> {
    if op == And then JoinAnd(a, b) else JoinOr(a, b)
  }

  /** The joined operand has exactly the value of the two together. */
  lemma JoinExact(env: Env, op: Op, a: Expr, b: Expr)
    requires Join(op, a, b).Some?
    ensures Eval(env, Join(op, a, b).value) == Apply(op, Eval(env, a), Eval(env, b))
  {
    if ExprEq(a, b) {
      ExprEqSound(env, a, b);
    }
  }

  /** It is a copy of the first operand, or it is a single symbol or comparison. */
  lemma JoinShape(op: Op, a: Expr, b: Expr)
    requires Join(op, a, b).Some?
    ensures Join(op, a, b).value == a || IsTest(Join(op, a, b).value)
    ensures IsYn(a) ==> Join(op, a, b).value == a
    ensures IsYn(b) ==> IsYn(Join(op, a, b).value)
    ensures a.Bin? ==> ExprEq(a, b) && Join(op, a, b).value == a
  {
  }

  // ---- Which operands are joined ----

  predicate IsLetter(s: Symbol) {
    s == Yes || s == Mod || s == No
  }

  predicate IsTristate(s: Symbol) {
    s.Config? && s.kind.Tristated?
  }

  predicate IsBoolean(s: Symbol) {
    s.Config? && s.kind.Boolean?
  }

  /** In this order: two different letters of one tristate symbol, or a boolean symbol and its
      negation. */
  predicate MergesInOr(a: Expr, b: Expr) {
    || (a.Equal? && b.Equal? && a.lhs == b.lhs && IsTristate(a.lhs)
        && IsLetter(a.rhs) && IsLetter(b.rhs) && a.rhs != b.rhs)
    || (a.Sym? && b == Not(a) && IsBoolean(a.sym))
  }

  /** In this order: a boolean or tristate symbol with its test for y or for not n; a tristate symbol
      equal to one constant and unequal to one; a tristate symbol unequal to two letters. */
  predicate MergesInAnd(a: Expr, b: Expr) {
    || (a.Sym? && (IsBoolean(a.sym) || IsTristate(a.sym)) && (b == Equal(a.sym, Yes) || b == Unequal(a.sym, No)))
    || (a.Equal? && b.Unequal? && a.lhs == b.lhs && IsTristate(a.lhs) && IsConst(a.rhs) && IsConst(b.rhs))
    || (a.Unequal? && b.Unequal? && a.lhs == b.lhs && IsTristate(a.lhs)
        && IsLetter(a.rhs) && IsLetter(b.rhs) && a.rhs != b.rhs)
  }

  predicate Merges(op: Op, a: Expr, b: Expr) {
    if op == Or then MergesInOr(a, b) || MergesInOr(b, a) else MergesInAnd(a, b) || MergesInAnd(b, a)
  }

  /** Two operands are joined exactly if they are equal or the tables have an entry for them. */
  lemma {:induction false} JoinIff(op: Op, a: Expr, b: Expr)
    ensures Join(op, a, b).Some? <==> ExprEq(a, b) || Merges(op, a, b)
  {
    hide ExprEq;
  }
}
