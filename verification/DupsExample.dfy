/** The second pass is not exact on m: a worked instance. */
module DuplicatesExample {
  import opened Options
  import opened Expr
  import opened Paths
  import opened ConstantElimination
  import opened Equality
  import opened Extraction
  import opened Transformation
  import opened Duplicates
  import opened DuplicatesProofs
  import opened DuplicatesLoop

  /** (a || b) && (!a && !b) */
  ghost function Either(a: Symbol, b: Symbol): Expr {
    Bin(Or, Sym(a), Sym(b))
  }

  ghost function Neither(a: Symbol, b: Symbol): Expr {
    Bin(And, Not(Sym(a)), Not(Sym(b)))
  }

  ghost function Clash(a: Symbol, b: Symbol): Expr {
    Bin(And, Either(a, b), Neither(a, b))
  }

  ghost predicate TwoTristates(a: Symbol, b: Symbol) {
    a != b && a.Config? && a.kind.Tristated? && b.Config? && b.kind.Tristated?
  }

  lemma Leaf(op: Op, e: Expr, p: Path)
    requires OnChain(op, e, p)
    ensures !IsOp(op, e) ==> p == []
  {
  }

  /** The three operands of the root chain. */
  lemma {:induction false} Places(a: Symbol, b: Symbol, p: Path)
    requires OnChain(And, Clash(a, b), p) && !IsOp(And, At(And, Clash(a, b), p))
    ensures p == [Left] || p == [Right, Left] || p == [Right, Right]
    ensures At(And, Clash(a, b), p) == if p == [Left] then Either(a, b)
                                       else if p == [Right, Left] then Not(Sym(a)) else Not(Sym(b))
  {
    var c := Child(Clash(a, b), p[0]);
    assert p == [p[0]] + p[1..];
    Leaf(And, c, p[1..]);
    if p[0] == Right {
      var r := p[1..];
      assert r == [r[0]] + r[1..];
      Leaf(And, Child(c, r[0]), r[1..]);
      assert At(And, c, r) == At(And, Child(c, r[0]), []);
    }
  }

  lemma {:induction false} EitherMerged(a: Symbol, b: Symbol)
    requires TwoTristates(a, b)
    ensures Merged(And, Either(a, b))
  {
    var e := Either(a, b);
    forall p: Path, q: Path ensures CannotJoin(Or, e, p, q) {
      if OperandPair(Or, e, p, q) {
        Leaf(Or, Child(e, p[0]), p[1..]);
        Leaf(Or, Child(e, q[0]), q[1..]);
        assert p == [p[0]] && q == [q[0]];
      }
    }
  }

  lemma NegationsDiffer(a: Symbol, b: Symbol)
    ensures ExprEq(Not(Sym(a)), Not(Sym(b))) <==> a == b
    ensures forall s: Symbol, t: Symbol :: !ExprEq(Not(Sym(s)), Sym(t))
  {
    assert ExprEq(Sym(a), Sym(b)) <==> a == b;
  }

  lemma {:induction false} FirstPass(a: Symbol, b: Symbol)
    requires TwoTristates(a, b)
    ensures Dups1(And, Clash(a, b), [], []) == (Clash(a, b), 0)
  {
    var e := Clash(a, b);
    forall p: Path, q: Path ensures CannotJoin(And, e, p, q) {
      if OperandPair(And, e, p, q) {
        Places(a, b, p);
        Places(a, b, q);
        NegationsDiffer(a, b);
        NegationsDiffer(b, a);
      }
    }
    EitherMerged(a, b);
    assert Merged(And, Not(Sym(a))) && Merged(And, Not(Sym(b)));
    assert Merged(And, e.right);
    FirstPassIdle(e);
    Dups1Marks(And, e, [], []);
  }

  lemma {:induction false} NegatedEither(a: Symbol, b: Symbol)
    requires TwoTristates(a, b)
    ensures Transform(Not(Either(a, b))) == Neither(a, b)
  {
    var x, y := Not(Sym(a)), Not(Sym(b));
    assert Transform(Either(a, b)) == Either(a, b);
    assert Negated(Sym(a)) == x && Negated(Sym(b)) == y;
    NormalStays(Neither(a, b));
    assert Negated(Either(a, b)) == Transform(Neither(a, b));
  }

  /** Two operands, and an operand against a chain. */
  lemma {:induction false} ExtractOperands(op: Op, c: Option<Expr>, x: Expr, y: Expr)
    requires !IsOp(op, x) && !IsOp(op, y)
    ensures !ExprEq(x, y) ==> ExtractEq(op, c, x, y) == (c, x, y)
    ensures ExprEq(x, y) ==>
              var (c', x', y') := ExtractEq(op, c, x, y);
              c'.Some? && x' == y' == Sym(Identity(op))
  {
  }

  lemma {:induction false} ExtractFromChain(op: Op, c: Option<Expr>, x: Expr, l: Expr, r: Expr)
    requires !IsOp(op, x)
    ensures var (c1, x1, l1) := ExtractEq(op, c, x, l);
            !IsOp(op, x1) ==>
              var (c2, x2, r2) := ExtractEq(op, c1, x1, r);
              ExtractEq(op, c, x, Bin(op, l, r)) == (c2, x2, Bin(op, l1, r2))
  {
  }

  /** All of !a && !b is found in itself. */
  lemma {:induction false} ExtractedWhole(a: Symbol, b: Symbol)
    requires a != b
    ensures Extract(And, Neither(a, b), Neither(a, b)).1 == Sym(Yes)
  {
    hide ExprEq, ExtractEq;
    var x, y, n := Not(Sym(a)), Not(Sym(b)), Neither(a, b);
    var yes := Sym(Yes);
    Distinct(a, b);
    ExtractOperands(And, None, x, x);
    var (c1, x1, l1) := ExtractEq(And, None, x, x);
    ExtractOperands(And, c1, yes, y);
    ExtractFromChain(And, None, x, x, y);
    ExtractOperands(And, c1, y, yes);
    ExtractOperands(And, c1, y, y);
    ExtractFromChain(And, c1, y, yes, y);
    ExtractTwo(x, y);
  }

  /** How the two operands of a chain are extracted, one after the other. */
  lemma {:induction false} ExtractTwo(x: Expr, y: Expr)
    ensures var n := Bin(And, x, y);
            var (c1, l, n1) := ExtractEq(And, None, x, n);
            var (c2, r, _) := ExtractEq(And, c1, y, n1);
            c2.Some? && l == Sym(Yes) && r == Sym(Yes) ==> Extract(And, n, n).1 == Sym(Yes)
  {
    hide ExprEq;
    var n := Bin(And, x, y);
    var (c1, l, n1) := ExtractEq(And, None, x, n);
    var (c2, r, n2) := ExtractEq(And, c1, y, n1);
    assert ExtractEq(And, None, n, n) == (c2, Bin(And, l, r), n2);
    assert EliminateYn(Bin(And, Sym(Yes), Sym(Yes))) == Sym(Yes);
  }

  lemma {:induction false} Distinct(a: Symbol, b: Symbol)
    requires a != b
    ensures var x, y, yes := Not(Sym(a)), Not(Sym(b)), Sym(Yes);
            ExprEq(x, x) && ExprEq(y, y) && !ExprEq(yes, y) && !ExprEq(y, yes) && !ExprEq(x, y) && !ExprEq(y, x)
  {
    NegationsDiffer(a, b);
    NegationsDiffer(b, a);
    NegationsDiffer(a, a);
    NegationsDiffer(b, b);
  }

  lemma {:induction false} NeitherValue(env: Env, a: Symbol, b: Symbol)
    ensures Eval(env, Not(Sym(a))) == 2 - TriOf(env, a) && Eval(env, Not(Sym(b))) == 2 - TriOf(env, b)
    ensures Eval(env, Neither(a, b)) == Apply(And, 2 - TriOf(env, a), 2 - TriOf(env, b))
  {
    assert Eval(env, Sym(a)) == TriOf(env, a) && Eval(env, Sym(b)) == TriOf(env, b);
  }

  /** A single negation does not hold all of !a && !b: where the other symbol is y, it is not
      bounded by it. */
  lemma {:induction false} ExtractedPart(a: Symbol, b: Symbol)
    requires TwoTristates(a, b)
    ensures Extract(And, Neither(a, b), Not(Sym(a))).1 != Sym(Yes)
    ensures Extract(And, Neither(a, b), Not(Sym(b))).1 != Sym(Yes)
  {
    var env, env' := Env({}, map[b := YES], map[], false), Env({}, map[a := YES], map[], false);
    assert TriOf(env, a) == NO && TriOf(env, b) == YES && TriOf(env', a) == YES && TriOf(env', b) == NO;
    NeitherValue(env, a, b);
    NeitherValue(env', a, b);
    ExtractFactors(env, And, Neither(a, b), Not(Sym(a)));
    ExtractFactors(env', And, Neither(a, b), Not(Sym(b)));
  }

  /** What a collapse does when the operand itself is left alone. */
  lemma {:induction false} CollapseAlone(op: Op, e: Expr, p: Path, q: Path)
    requires IsOp(op, e) && OnChain(op, e, p) && OnChain(op, e, q) && !IsOp(op, At(op, e, p))
    requires At(op, e, p).Bin? && Dups2(At(op, e, p).op, At(op, e, p), [], []) == (At(op, e, p), 0)
    ensures Collapse(op, e, p, q) ==
              if Extract(op, Transform(Not(At(op, e, p))), At(op, e, q)).1 == Sym(Identity(op))
              then (Replace(op, e, p, Sym(Absorbing(op))), 1) else (e, 0)
  {
    AtSame(op, e, p, e);
  }

  /** The operand at p meets the two operands of an op node, then the node itself. */
  lemma {:induction false} MeetsNode(op: Op, e: Expr, p: Path, q: Path, e': Expr, n: nat)
    requires IsOp(op, e) && OnChain(op, e, p) && OnChain(op, e, q)
    requires !IsOp(op, At(op, e, p)) && IsOp(op, At(op, e, q))
    requires OnChain(op, e, q + [Left]) && Dups2(op, e, p, q + [Left]) == (e, 0)
    requires OnChain(op, e, q + [Right]) && Dups2(op, e, p, q + [Right]) == (e', n)
    requires OnChain(op, e', p) && !IsOp(op, At(op, e', p)) && OnChain(op, e', q)
    ensures Dups2(op, e, p, q) == (Collapse(op, e', p, q).0, n + Collapse(op, e', p, q).1)
  {
  }

  ghost function Collapsed(a: Symbol, b: Symbol): Expr {
    Bin(And, Sym(No), Neither(a, b))
  }

  lemma {:induction false} LeftOperand(a: Symbol, b: Symbol)
    requires TwoTristates(a, b)
    ensures OnChain(And, Clash(a, b), [Left]) && OnChain(And, Clash(a, b), [Right])
    ensures Dups2(And, Clash(a, b), [Left], [Right]) == (Collapsed(a, b), 1)
  {
    var e, n := Clash(a, b), Neither(a, b);
    FlatIdle(Or, Either(a, b), [], []);
    NegatedEither(a, b);
    ExtractedWhole(a, b);
    ExtractedPart(a, b);
    assert At(And, e, [Left]) == Either(a, b) && At(And, e, [Right]) == n;
    Split(And, e, [Right]);
    assert At(And, e, [Right] + [Left]) == Not(Sym(a)) && At(And, e, [Right] + [Right]) == Not(Sym(b));
    CollapseAlone(And, e, [Left], [Right] + [Left]);
    CollapseAlone(And, e, [Left], [Right] + [Right]);
    CollapseAlone(And, e, [Left], [Right]);
    assert Replace(And, e, [Left], Sym(No)) == Collapsed(a, b);
    MeetsNode(And, e, [Left], [Right], e, 0);
  }

  /** One call of the second pass collapses (a || b) to n. */
  lemma {:induction false} SecondPass(a: Symbol, b: Symbol)
    requires TwoTristates(a, b)
    ensures Dups2(And, Clash(a, b), [], []) == (Collapsed(a, b), 1)
  {
    var e, e' := Clash(a, b), Collapsed(a, b);
    LeftOperand(a, b);
    assert [] + [Left] == [Left] && [] + [Right] == [Right];
    AtChild(And, e, [], Left);
    AtChild(And, e', [], Left);
    assert At(And, e, [Left]) == Either(a, b);
    assert At(And, e', [Left]) == e'.left == Sym(No);
    assert Dups2(And, e, [Left], [Left]) == (e, 0);
    MeetsNode(And, e, [Left], [], e', 1);
    FlatIdle(And, e', [Right], []);
  }

  /** With a at m and b at n the expression is m, but what is returned is n. */
  lemma {:induction false} WithoutDupsNotExact(env: Env, a: Symbol, b: Symbol)
    requires TwoTristates(a, b) && TriOf(env, a) == MOD && TriOf(env, b) == NO
    ensures Eval(env, Clash(a, b)) == MOD && WithoutDups(Clash(a, b)) == Sym(No)
  {
    FirstPass(a, b);
    SecondPass(a, b);
    assert Eval(env, Either(a, b)) == MOD && Eval(env, Neither(a, b)) == MOD by {
      assert Eval(env, Not(Sym(a))) == MOD && Eval(env, Not(Sym(b))) == YES;
    }
    CollapsedIsNo(a, b);
    assert Round(Clash(a, b)) == (Collapsed(a, b), 1);
    assert Round(Sym(No)) == (Sym(No), 0);
    assert WithoutDups(Sym(No)) == Sym(No);
    assert WithoutDups(Clash(a, b)) == WithoutDups(EliminateYn(Collapsed(a, b)));
  }

  lemma {:induction false} CollapsedIsNo(a: Symbol, b: Symbol)
    ensures EliminateYn(Collapsed(a, b)) == Sym(No)
  {
    assert EliminateYn(Sym(No)) == Sym(No);
  }
}
