/** An entry shown below a hidden parent: a worked instance. */
module SubmenuExample {
  import opened Expr
  import opened Paths
  import opened Equality
  import opened Joining
  import opened Reflexivity
  import opened Transformation
  import opened DuplicatesLoop
  import opened Queries
  import opened Submenus

  // ---- Chains of two and three operands ----

  lemma {:induction false} LeafPath(op: Op, e: Expr, p: Path)
    requires OnChain(op, e, p) && !IsOp(op, e)
    ensures p == []
  {
  }

  lemma {:induction false} TwoStay(op: Op, a: Expr, b: Expr)
    requires !a.Bin? && !b.Bin? && Join(op, a, b).None? && Join(op, b, a).None?
    ensures WithoutDups(Bin(op, a, b)) == Bin(op, a, b)
  {
    var e := Bin(op, a, b);
    forall p: Path, q: Path ensures CannotJoin(op, e, p, q) {
      if OperandPair(op, e, p, q) {
        TwoPlaces(op, a, b, p);
        TwoPlaces(op, a, b, q);
      }
    }
    assert Flat(op, a) && Flat(op, b);
    FlatStays(op, e);
  }

  lemma {:induction false} TwoPlaces(op: Op, a: Expr, b: Expr, p: Path)
    requires !IsOp(op, a) && !IsOp(op, b)
    requires OnChain(op, Bin(op, a, b), p) && !IsOp(op, At(op, Bin(op, a, b), p))
    ensures p == [Left] || p == [Right]
    ensures At(op, Bin(op, a, b), p) == if p == [Left] then a else b
  {
    assert p == [p[0]] + p[1..];
    LeafPath(op, Child(Bin(op, a, b), p[0]), p[1..]);
  }

  lemma {:induction false} ThreeStay(op: Op, a: Expr, b: Expr, c: Expr)
    requires !a.Bin? && !b.Bin? && !c.Bin?
    requires Join(op, a, b).None? && Join(op, b, a).None?
    requires Join(op, a, c).None? && Join(op, c, a).None?
    requires Join(op, b, c).None? && Join(op, c, b).None?
    ensures WithoutDups(Bin(op, Bin(op, a, b), c)) == Bin(op, Bin(op, a, b), c)
  {
    var e := Bin(op, Bin(op, a, b), c);
    forall p: Path, q: Path ensures CannotJoin(op, e, p, q) {
      if OperandPair(op, e, p, q) {
        ThreePlaces(op, a, b, c, p);
        ThreePlaces(op, a, b, c, q);
      }
    }
    assert Flat(op, a) && Flat(op, b) && Flat(op, c);
    assert Flat(op, Bin(op, a, b));
    FlatStays(op, e);
  }

  lemma {:induction false} ThreePlaces(op: Op, a: Expr, b: Expr, c: Expr, p: Path)
    requires !IsOp(op, a) && !IsOp(op, b) && !IsOp(op, c)
    requires OnChain(op, Bin(op, Bin(op, a, b), c), p) && !IsOp(op, At(op, Bin(op, Bin(op, a, b), c), p))
    ensures p == [Left, Left] || p == [Left, Right] || p == [Right]
    ensures At(op, Bin(op, Bin(op, a, b), c), p) ==
              if p == [Left, Left] then a else if p == [Left, Right] then b else c
  {
    assert p == [p[0]] + p[1..];
    if p[0] == Right {
      LeafPath(op, c, p[1..]);
    } else {
      TwoPlaces(op, a, b, p[1..]);
    }
  }

  /** All operands of the second chain are found in the first one. */
  lemma {:induction false} TwoInThree(a: Expr, b: Expr, c: Expr)
    requires !a.Bin? && !b.Bin? && !c.Bin? && !Flagged(a) && !Flagged(b) && !Flagged(c)
    requires ExprEq(a, a) && ExprEq(b, b) && b != Sym(Yes) && c != Sym(Yes)
    ensures EliminateEq(Bin(And, Bin(And, a, b), c), Bin(And, a, b)).Some?
    ensures EliminateEq(Bin(And, Bin(And, a, b), c), Bin(And, a, b)).value.1 == Sym(Yes)
  {
    var yes := Sym(Yes);
    var ab := Bin(And, a, b);
    MeetsSelf(And, a);
    IdentityPasses(And, b);
    ChainMeets(And, a, ab);
    assert CancelEq(And, a, ab) == (yes, Bin(And, yes, b));
    NotYes(b);
    MeetsSelf(And, b);
    ChainMeets(And, b, Bin(And, yes, b));
    assert CancelEq(And, b, Bin(And, yes, b)) == (yes, Bin(And, yes, yes));
    ChainAgainst(And, a, b, ab);
    NotYes(c);
    ChainMeets(And, c, Bin(And, yes, yes));
    ChainAgainst(And, ab, c, ab);
    AllYes();
  }

  lemma {:induction false} NotYes(x: Expr)
    requires !x.Bin? && x != Sym(Yes)
    ensures CancelEq(And, x, Sym(Yes)) == (x, Sym(Yes))
  {
  }

  // ---- Shown below a hidden parent ----

  /** !t && c && !x, the visibility of the entry; t=n && c, that of the symbol x before it. */
  ghost function EntryDep(t: Symbol, c: Symbol, x: Symbol): Expr {
    Bin(And, Bin(And, Not(Sym(t)), Sym(c)), Not(Sym(x)))
  }

  ghost function ParentDep(t: Symbol, c: Symbol): Expr {
    Bin(And, Equal(t, No), Sym(c))
  }

  ghost predicate Symbols(t: Symbol, c: Symbol, x: Symbol) {
    t.Config? && t.kind.Tristated? && IsBool(c) && IsBool(x) && c != x
  }

  lemma {:induction false} TransformBin(op: Op, l: Expr, r: Expr)
    ensures Transform(Bin(op, l, r)) == Bin(op, Transform(l), Transform(r))
    ensures Transform(Not(Bin(op, l, r))) == Negated(Bin(op, Transform(l), Transform(r)))
  {
  }

  lemma {:induction false} TransformNegatedBin(l: Expr, r: Expr)
    ensures Negated(Bin(Or, l, r)) == Bin(And, Transform(Not(l)), Transform(Not(r)))
  {
  }

  lemma {:induction false} TransformTests(t: Symbol, c: Symbol)
    requires !IsBool(t) && IsBool(c)
    ensures Transform(Unequal(t, No)) == Unequal(t, No) && Transform(Not(Unequal(t, No))) == Equal(t, No)
    ensures Transform(Not(Equal(t, No))) == Unequal(t, No)
    ensures Transform(Equal(c, No)) == Not(Sym(c)) && Transform(Unequal(c, No)) == Sym(c)
    ensures Transform(Not(Sym(c))) == Not(Sym(c)) && Transform(Not(Not(Sym(c)))) == Sym(c)
  {
    NormalStays(Not(Sym(c)));
    NormalStays(Unequal(t, No));
    assert Transform(Not(Unequal(t, No))) == Negated(Unequal(t, No));
    NormalStays(Equal(t, No));
    assert Transform(Not(Equal(t, No))) == Negated(Equal(t, No));
    assert Transform(Not(Not(Sym(c)))) == Negated(Not(Sym(c))) == Transform(Sym(c));
  }

  lemma {:induction false} ShownParent(t: Symbol, c: Symbol)
    requires t.Config? && t.kind.Tristated? && IsBool(c)
    ensures Shown(ParentDep(t, c)) == ParentDep(t, c)
  {
    var a, b := Equal(t, No), Sym(c);
    assert TransCompare(a, true, No) == Not(a) && TransCompare(b, true, No) == Equal(c, No);
    assert TransCompare(ParentDep(t, c), false, No) == Not(Bin(Or, Not(a), Equal(c, No)));
    TransformTests(t, c);
    TransformBin(Or, Not(a), Equal(c, No));
    TransformNegatedBin(Unequal(t, No), Not(b));
    TwoStay(And, a, b);
  }

  lemma {:induction false} ShownEntry(t: Symbol, c: Symbol, x: Symbol)
    requires Symbols(t, c, x)
    ensures Shown(EntryDep(t, c, x)) == Bin(And, ParentDep(t, c), Not(Sym(x)))
  {
    var a, b, d := Equal(t, No), Sym(c), Not(Sym(x));
    var ta, tb, td := Unequal(t, No), Equal(c, No), Unequal(x, No);
    CompareEntry(t, c, x);
    TransformTests(t, c);
    TransformTests(t, x);
    TransformBin(Or, ta, tb);
    TransformBin(Or, Bin(Or, ta, tb), td);
    TransformNegatedBin(Bin(Or, ta, Not(b)), Sym(x));
    TransformBin(Or, ta, Not(b));
    TransformNegatedBin(ta, Not(b));
    ThreeStay(And, a, b, d);
  }

  lemma {:induction false} CompareEntry(t: Symbol, c: Symbol, x: Symbol)
    ensures TransCompare(EntryDep(t, c, x), false, No) ==
              Not(Bin(Or, Bin(Or, Unequal(t, No), Equal(c, No)), Unequal(x, No)))
  {
    assert TransCompare(Not(Sym(t)), true, No) == Unequal(t, No);
    assert TransCompare(Not(Sym(x)), true, No) == Unequal(x, No);
    assert TransCompare(Bin(And, Not(Sym(t)), Sym(c)), true, No) == Bin(Or, Unequal(t, No), Equal(c, No));
  }

  /** With t at m, c at y and x at n the entry, which contains x without depending on it, is put below
      x and shown, while x is hidden: !t is m, and compared with n through the negation it counts as
      t=n. */
  lemma {:induction false} SubmenuUnsound(env: Env, t: Symbol, c: Symbol, x: Symbol)
    requires Symbols(t, c, x)
    requires TriOf(env, t) == MOD && TriOf(env, c) == YES && TriOf(env, x) == NO
    ensures Contains(EntryDep(t, c, x), x) && !Depends(EntryDep(t, c, x), x)
    ensures PutBelow(EntryDep(t, c, x), ParentDep(t, c))
    ensures Eval(env, EntryDep(t, c, x)) == MOD && Eval(env, ParentDep(t, c)) == NO
  {
    ShownParent(t, c);
    ShownEntry(t, c, x);
    TwoInThree(Equal(t, No), Sym(c), Not(Sym(x)));
    assert Contains(Sym(x), x) && Contains(Not(Sym(x)), x);
    assert !Depends(Bin(And, Not(Sym(t)), Sym(c)), x);
    assert Eval(env, Sym(t)) == MOD && Eval(env, Not(Sym(t))) == MOD && Eval(env, Sym(c)) == YES;
    assert Eval(env, Sym(x)) == NO && Eval(env, Not(Sym(x))) == YES;
    assert Eval(env, Bin(And, Not(Sym(t)), Sym(c))) == MOD;
    assert Eval(env, Equal(t, No)) == NO;
  }
}
