/** sym_calc_value: the values of configuration symbols, computed on demand, each once. */
module SymbolEvaluation {
  import opened Options
  import opened Expr
  import opened SymbolValues
  import opened SymbolStates

  /** The symbols of one configuration and what is remembered of their values. A graph may have
      cycles; when it has none, rank says so and every computed value is the one that SymbolValues
      defines. The parameter n of the methods bounds the ranks of the symbols that are asked for. */
  class Evaluator {
    const graph: Graph
    ghost const rank: Ranking
    var valid: set<Symbol>
    var curr: map<Symbol, Value>
    var visible: map<Symbol, Tristate>
    var write: set<Symbol>

    function Now(): State
      reads this
    {
      State(valid, curr, visible, write)
    }

    constructor (g: Graph, ghost r: Ranking)
      requires Closed(g)
      ensures graph == g && rank == r
      ensures Invariant(graph, Now()) && valid == {}
      ensures forall n: nat :: Memo(graph, rank, Now(), n)
    {
      graph, rank := g, r;
      valid, curr, visible, write := {}, map[], map[], {};
    }

    /** sym_clear_all_valid. */
    method ClearAllValid()
      requires Invariant(graph, Now())
      modifies this`valid
      ensures Invariant(graph, Now()) && valid == {}
      ensures forall n: nat :: Memo(graph, rank, Now(), n)
    {
      valid := {};
    }

    /** expr_calc_value. */
    method CalcExpr(e: Expr, ghost n: nat) returns (v: Tristate)
      requires Invariant(graph, Now()) && Memo(graph, rank, Now(), n) && Within(graph, e)
      requires Ranked(graph, rank) ==> Below(rank, e, n)
      modifies this
      ensures Step(graph, rank, old(Now()), Now(), n, None)
      ensures Ranked(graph, rank) ==> v == ExprValue(graph, rank, e, n)
      decreases Pending(graph, Now()), 1, Size(e)
    {
      match e {
        case Sym(s) =>
          var value := CalcOperand(s, n);
          v := value.tri;
        case Not(x) =>
          var x' := CalcExpr(x, n);
          v := 2 - x';
        case Equal(a, b) =>
          var x, y := CalcOperands(a, b, n);
          v := Truth(x == y);
        case Unequal(a, b) =>
          var x, y := CalcOperands(a, b, n);
          v := Truth(x != y);
        case Bin(op, l, r) =>
          var l', r' := CalcBoth(l, r, n);
          v := Apply(op, l', r');
      }
    }

    /** Both operands are computed, whatever the first one is. */
    method CalcBoth(l: Expr, r: Expr, ghost n: nat) returns (x: Tristate, y: Tristate)
      requires Invariant(graph, Now()) && Memo(graph, rank, Now(), n) && Within(graph, l) && Within(graph, r)
      requires Ranked(graph, rank) ==> Below(rank, l, n) && Below(rank, r, n)
      modifies this
      ensures Step(graph, rank, old(Now()), Now(), n, None)
      ensures Ranked(graph, rank) ==> x == ExprValue(graph, rank, l, n) && y == ExprValue(graph, rank, r, n)
      decreases Pending(graph, Now()), 1, Size(l) + Size(r)
    {
      ghost var a := Now();
      x := CalcExpr(l, n);
      ghost var b := Now();
      StepEnd(graph, rank, a, b, n, None);
      y := CalcExpr(r, n);
      StepChain(graph, rank, a, b, Now(), n, None);
    }

    method CalcOperand(s: Symbol, ghost n: nat) returns (v: Value)
      requires Invariant(graph, Now()) && Memo(graph, rank, Now(), n) && InTable(graph, s)
      requires Ranked(graph, rank) ==> SymBelow(rank, s, n)
      modifies this
      ensures Step(graph, rank, old(Now()), Now(), n, None)
      ensures Ranked(graph, rank) ==> v == ValueOf(graph, rank, s, n)
      decreases Pending(graph, Now()), 1, 0
    {
      CalcValue(s, n);
      v := Curr(Now(), s);
      if Ranked(graph, rank) {
        KnownIsRight(graph, rank, Now(), s, n);
      }
    }

    /** Both sides of a comparison are computed before either is read. */
    method CalcOperands(a: Symbol, b: Symbol, ghost n: nat) returns (x: string, y: string)
      requires Invariant(graph, Now()) && Memo(graph, rank, Now(), n) && InTable(graph, a) && InTable(graph, b)
      requires Ranked(graph, rank) ==> SymBelow(rank, a, n) && SymBelow(rank, b, n)
      modifies this
      ensures Step(graph, rank, old(Now()), Now(), n, None)
      ensures Ranked(graph, rank) ==>
                x == StringOf(a, ValueOf(graph, rank, a, n)) && y == StringOf(b, ValueOf(graph, rank, b, n))
      decreases Pending(graph, Now()), 1, 0
    {
      ghost var first := Now();
      CalcValue(a, n);
      ghost var second := Now();
      StepEnd(graph, rank, first, second, n, None);
      CalcValue(b, n);
      StepChain(graph, rank, first, second, Now(), n, None);
      x, y := StringOf(a, Curr(Now(), a)), StringOf(b, Curr(Now(), b));
      if Ranked(graph, rank) {
        KnownIsRight(graph, rank, Now(), a, n);
        KnownIsRight(graph, rank, Now(), b, n);
      }
    }

    method CalcCondition(e: Option<Expr>, ghost n: nat) returns (v: Tristate)
      requires Invariant(graph, Now()) && Memo(graph, rank, Now(), n) && WithinOpt(graph, e)
      requires Ranked(graph, rank) ==> OptBelow(rank, e, n)
      modifies this
      ensures Step(graph, rank, old(Now()), Now(), n, None)
      ensures Ranked(graph, rank) ==> v == ConditionValue(graph, rank, e, n)
      decreases Pending(graph, Now()), 2
    {
      if e.None? {
        v := YES;
      } else {
        v := CalcExpr(e.value, n);
      }
    }

    /** The loop of sym_calc_visibility over the prompts. */
    method CalcPrompts(s: Symbol, ghost n: nat) returns (v: Tristate)
      requires Invariant(graph, Now()) && Memo(graph, rank, Now(), n) && s in graph.info
      requires Ranked(graph, rank) ==> Rank(rank, s) == n
      modifies this
      ensures Step(graph, rank, old(Now()), Now(), n, None)
      ensures Ranked(graph, rank) ==> v == VisibilityOf(graph, rank, s)
      decreases Pending(graph, Now()), 3
    {
      hide Step, Memo, Invariant, Pending;
      ghost var start := Now();
      StepRefl(graph, rank, start, n, None);
      var prompts := graph.info[s].prompts;
      v := NO;
      for k := 0 to |prompts|
        invariant Step(graph, rank, start, Now(), n, None) && Pending(graph, Now()) <= Pending(graph, start)
        invariant Ranked(graph, rank) ==> v == Visibility(graph, rank, graph.info[s], n, k)
      {
        ghost var before := Now();
        StepEnd(graph, rank, start, before, n, None);
        assert InfoWithin(graph, graph.info[s]);
        var c := CalcCondition(prompts[k], n);
        StepChain(graph, rank, start, before, Now(), n, None);
        v := Apply(Or, v, c);
      }
    }

    /** sym_calc_visibility. */
    method CalcVisibility(s: Symbol, ghost n: nat)
      requires Invariant(graph, Now()) && Memo(graph, rank, Now(), n) && s in graph.info
      requires Ranked(graph, rank) ==> Rank(rank, s) == n
      modifies this
      ensures Step(graph, rank, old(Now()), Now(), n, Some(s))
      ensures Ranked(graph, rank) ==>
                Visible(Now(), s) == VisibilityOf(graph, rank, s) && (s in write <==> s in old(write))
      decreases Pending(graph, Now()), 4
    {
      var v := CalcPrompts(s, n);
      if Visible(Now(), s) != v {
        visible := visible[s := v];
      }
    }

    /** sym_get_default_prop: the first default whose condition is not n. */
    method DefaultProp(s: Symbol, ghost n: nat) returns (def: Option<Symbol>)
      requires Invariant(graph, Now()) && Memo(graph, rank, Now(), n) && s in graph.info
      requires Ranked(graph, rank) ==> Rank(rank, s) == n
      modifies this
      ensures Step(graph, rank, old(Now()), Now(), n, None)
      ensures def.Some? ==> InTable(graph, def.value)
      ensures Ranked(graph, rank) ==> def == DefaultOf(graph, rank, s)
      decreases Pending(graph, Now()), 3
    {
      hide Step, Memo, Invariant, Pending;
      ghost var start := Now();
      StepRefl(graph, rank, start, n, None);
      var defaults := graph.info[s].defaults;
      for k := 0 to |defaults|
        invariant Step(graph, rank, start, Now(), n, None) && Pending(graph, Now()) <= Pending(graph, start)
        invariant Ranked(graph, rank) ==>
                    DefaultOf(graph, rank, s) == FirstDefault(graph, rank, graph.info[s], n, k)
      {
        ghost var before := Now();
        StepEnd(graph, rank, start, before, n, None);
        assert InfoWithin(graph, graph.info[s]);
        var c := CalcCondition(defaults[k].visible, n);
        StepChain(graph, rank, start, before, Now(), n, None);
        if c != NO {
          return Some(defaults[k].def);
        }
      }
      def := None;
    }

    /** sym_get_type, as the question whether m is not available to the symbol. */
    method TwoValuedType(s: Symbol, ghost n: nat) returns (two: bool)
      requires Invariant(graph, Now()) && Memo(graph, rank, Now(), n) && s in graph.info
      requires Ranked(graph, rank) ==> Rank(rank, s) == n
      modifies this
      ensures Step(graph, rank, old(Now()), Now(), n, None)
      ensures s.kind.Boolean? ==> two
      ensures Ranked(graph, rank) ==> two == IsTwoValued(graph, rank, s)
      decreases Pending(graph, Now()), 3
    {
      two := s.kind.Boolean?;
      if s.kind.Tristated? {
        var m := CalcOperand(graph.modules, n);
        two := m.tri == NO;
      }
    }

    /** The default's value if some default applies. */
    method CalcDefault(s: Symbol, ghost n: nat) returns (found: bool, v: Value)
      requires Invariant(graph, Now()) && Memo(graph, rank, Now(), n) && s in graph.info
      requires Ranked(graph, rank) ==> Rank(rank, s) == n
      modifies this
      ensures Step(graph, rank, old(Now()), Now(), n, None)
      ensures Ranked(graph, rank) ==>
                found == DefaultOf(graph, rank, s).Some? && v == DefaultValue(graph, rank, s)
      decreases Pending(graph, Now()), 4
    {
      v := Initial(s);
      ghost var a := Now();
      var def := DefaultProp(s, n);
      found := def.Some?;
      if found {
        ghost var b := Now();
        StepEnd(graph, rank, a, b, n, None);
        v := CalcOperand(def.value, n);
        StepChain(graph, rank, a, b, Now(), n, None);
      }
    }

    /** The value before m is ruled out, with the mark that the symbol is written. */
    method Choose(s: Symbol, ghost n: nat) returns (v: Value)
      requires Invariant(graph, Now()) && Memo(graph, rank, Now(), n) && s in graph.info
      requires Ranked(graph, rank) ==>
                 Rank(rank, s) == n && Visible(Now(), s) == VisibilityOf(graph, rank, s) && s !in write
      modifies this
      ensures Step(graph, rank, old(Now()), Now(), n, Some(s))
      ensures Ranked(graph, rank) ==>
                v == Chosen(graph, rank, s) && (s in write <==> IsWritten(graph, rank, s))
      decreases Pending(graph, Now()), 5
    {
      hide Step, Memo, Invariant, Pending;
      ghost var a := Now();
      if Visible(Now(), s) != NO {
        write := write + {s};
        ghost var b := Now();
        WriteStep(graph, rank, a, s, n);
        StepEnd(graph, rank, a, b, n, Some(s));
        var user := graph.info[s].user;
        if user.Some? {
          v := user.value;
        } else {
          var found;
          found, v := CalcDefault(s, n);
          ChainWide(graph, rank, a, b, Now(), s, n);
        }
        v := Limit(v, Visible(Now(), s), graph.info[s].optional);
      } else {
        var found;
        found, v := CalcDefault(s, n);
        ghost var b := Now();
        StepRefl(graph, rank, a, n, Some(s));
        ChainWide(graph, rank, a, a, b, s, n);
        if found {
          write := write + {s};
          WriteStep(graph, rank, b, s, n);
          StepChain(graph, rank, a, b, Now(), n, Some(s));
        }
      }
    }

    /** sym_calc_value after the symbol has been marked: until the end it has the empty value. */
    method CalcTyped(s: Symbol, ghost n: nat)
      requires Invariant(graph, Now()) && Memo(graph, rank, Now(), n) && s in graph.info && Typed(s)
      requires Ranked(graph, rank) ==> Rank(rank, s) == n && s !in write
      modifies this
      ensures Step(graph, rank, old(Now()), Now(), n, Some(s))
      ensures Ranked(graph, rank) ==> Right(graph, rank, Now(), s)
      decreases Pending(graph, Now()), 6
    {
      hide Step, Memo, Invariant, Pending;
      ghost var a := Now();
      CalcVisibility(s, n);
      ghost var b := Now();
      StepEnd(graph, rank, a, b, n, Some(s));
      curr := curr[s := Initial(s)];
      CurrStep(graph, rank, b, s, Initial(s), n);
      ghost var c := Now();
      StepChain(graph, rank, a, b, c, n, Some(s));
      var newval := Choose(s, n);
      ghost var d := Now();
      StepChain(graph, rank, a, c, d, n, Some(s));
      var two := TwoValuedType(s, n);
      ghost var e := Now();
      ChainWide(graph, rank, a, d, e, s, n);
      if two {
        newval := Promote(newval);
      }
      curr := curr[s := newval];
      CurrStep(graph, rank, e, s, newval, n);
      StepChain(graph, rank, a, e, Now(), n, Some(s));
    }

    /** sym_calc_value. */
    method CalcValue(s: Symbol, ghost n: nat)
      requires Invariant(graph, Now()) && Memo(graph, rank, Now(), n) && InTable(graph, s)
      requires Ranked(graph, rank) ==> SymBelow(rank, s, n)
      modifies this
      ensures Step(graph, rank, old(Now()), Now(), n, None)
      ensures Known(Now(), s)
      decreases Pending(graph, Now()), 0
    {
      hide Step, Memo, Invariant, Pending;
      ghost var a, m := Now(), Rank(rank, s);
      if s.Yes? || s.Mod? || s.No? || s in valid {
        StepRefl(graph, rank, a, n, None);
        KnownIfValid(graph, a, s);
        return;
      }
      if !Typed(s) {
        curr := curr[s := Constant(s)];
        NameStep(graph, rank, a, s, n);
        return;
      }
      MarkPending(graph, a, s);
      valid := valid + {s};
      write := write - {s};
      ghost var b := Now();
      MemoLower(graph, rank, a, m, n);
      MarkStep(graph, rank, a, s, m);
      StepEnd(graph, rank, a, b, m, Some(s));
      CalcTyped(s, m);
      StepKnown(graph, rank, b, Now(), s, m);
      StepChain(graph, rank, a, b, Now(), m, Some(s));
      StepRaise(graph, rank, a, Now(), s, m, n);
    }
  }
}
