/** The memory of symbol evaluation as a value: what it means for it to be right, and what a
    computation may do to it. */
module SymbolStates {
  import opened Options
  import opened Expr
  import opened Sets
  import opened SymbolValues

  /** The fields flags, curr and visible of all symbols: which are SYMBOL_VALID, their current
      values, their visibility, and which are SYMBOL_WRITE. */
  datatype State = State(valid: set<Symbol>, curr: map<Symbol, Value>, visible: map<Symbol, Tristate>,
                         write: set<Symbol>)

  predicate Predefined(s: Symbol) {
    s.Yes? || s.Mod? || s.No?
  }

  function Curr(st: State, s: Symbol): Value {
    if Predefined(s) then Constant(s) else if s in st.curr then st.curr[s] else Value("", NO)
  }

  function Visible(st: State, s: Symbol): Tristate {
    if s in st.visible then st.visible[s] else NO
  }

  /** In every reachable state no boolean symbol has the value m, and the value of a symbol
      without a type is its name once it has been asked for. */
  ghost predicate Invariant(g: Graph, st: State) {
    && Closed(g) && st.valid <= g.info.Keys
    && (forall s <- st.curr :: s.Config? && s.kind.Boolean? ==> st.curr[s].tri != MOD)
    && (forall s <- st.curr :: !Typed(s) ==> st.curr[s] == Constant(s))
  }

  /** Symbols still to be computed. */
  ghost function Pending(g: Graph, st: State): nat {
    |g.info.Keys - st.valid|
  }

  /** The value of s has been asked for. */
  ghost predicate Known(st: State, s: Symbol) {
    if Typed(s) then s in st.valid else Predefined(s) || s in st.curr
  }

  /** What is remembered of s is what the configuration determines. */
  ghost predicate Right(g: Graph, rank: Ranking, st: State, s: Symbol)
    requires Ranked(g, rank) && s in g.info
  {
    Curr(st, s) == SymbolValue(g, rank, s) && (s in st.write <==> IsWritten(g, rank, s))
  }

  /** If the graph is acyclic, the remembered symbols of a rank below n are right. */
  ghost predicate Memo(g: Graph, rank: Ranking, st: State, n: nat) {
    Ranked(g, rank) ==>
      forall s <- st.valid :: s in g.info && Rank(rank, s) < n ==> Right(g, rank, st, s)
  }

  /** Nothing about s differs. */
  predicate Same(a: State, b: State, s: Symbol) {
    && (s in b.valid <==> s in a.valid) && (s in b.write <==> s in a.write)
    && Curr(b, s) == Curr(a, s) && Visible(b, s) == Visible(a, s)
  }

  /** If the graph is acyclic, symbols of rank n and above, except x, have not been touched. */
  ghost predicate Untouched(g: Graph, rank: Ranking, a: State, b: State, n: nat, x: Option<Symbol>) {
    Ranked(g, rank) ==>
      forall s <- g.info :: Rank(rank, s) >= n && Some(s) != x ==> Same(a, b, s)
  }

  /** b is reached from a by a computation on ranks below n, and on x. */
  ghost predicate Step(g: Graph, rank: Ranking, a: State, b: State, n: nat, x: Option<Symbol>) {
    && Invariant(g, b) && Memo(g, rank, b, n)
    && a.valid <= b.valid && a.curr.Keys <= b.curr.Keys
    && Untouched(g, rank, a, b, n, x)
  }

  lemma {:induction false} StepRefl(g: Graph, rank: Ranking, a: State, n: nat, x: Option<Symbol>)
    requires Invariant(g, a) && Memo(g, rank, a, n)
    ensures Step(g, rank, a, a, n, x)
  {
  }

  lemma {:induction false} StepEnd(g: Graph, rank: Ranking, a: State, b: State, n: nat, x: Option<Symbol>)
    requires Step(g, rank, a, b, n, x)
    ensures Invariant(g, b) && Memo(g, rank, b, n) && Pending(g, b) <= Pending(g, a)
  {
    SubsetSize(g.info.Keys - b.valid, g.info.Keys - a.valid);
  }

  lemma {:induction false} StepChain(g: Graph, rank: Ranking, a: State, b: State, c: State, n: nat, x: Option<Symbol>)
    requires Step(g, rank, a, b, n, x) && Step(g, rank, b, c, n, x)
    ensures Step(g, rank, a, c, n, x)
    ensures Invariant(g, c) && Memo(g, rank, c, n)
    ensures Pending(g, c) <= Pending(g, b) <= Pending(g, a)
  {
    StepEnd(g, rank, a, b, n, x);
    StepEnd(g, rank, b, c, n, x);
  }

  /** A step that leaves s alone after one that may change it. */
  lemma {:induction false} ChainWide(g: Graph, rank: Ranking, a: State, b: State, c: State, s: Symbol, n: nat)
    requires Step(g, rank, a, b, n, Some(s)) && Step(g, rank, b, c, n, None)
    requires s in g.info && (Ranked(g, rank) ==> Rank(rank, s) == n)
    ensures Step(g, rank, a, c, n, Some(s)) && Invariant(g, c) && Memo(g, rank, c, n)
    ensures Pending(g, c) <= Pending(g, b) <= Pending(g, a)
    ensures Ranked(g, rank) ==> Same(b, c, s)
  {
    assert Step(g, rank, b, c, n, Some(s));
    StepChain(g, rank, a, b, c, n, Some(s));
  }

  /** Once a symbol is known, its current value is the value the configuration determines. */
  lemma {:induction false} KnownIsRight(g: Graph, rank: Ranking, st: State, s: Symbol, n: nat)
    requires Invariant(g, st) && Memo(g, rank, st, n) && Known(st, s) && InTable(g, s)
    requires Ranked(g, rank) && SymBelow(rank, s, n)
    ensures Curr(st, s) == ValueOf(g, rank, s, n)
  {
  }

  lemma {:induction false} MarkPending(g: Graph, a: State, s: Symbol)
    requires s in g.info && s !in a.valid
    ensures Pending(g, a.(valid := a.valid + {s}, write := a.write - {s})) < Pending(g, a)
  {
    assert g.info.Keys - (a.valid + {s}) == (g.info.Keys - a.valid) - {s};
  }

  lemma {:induction false} KnownIfValid(g: Graph, a: State, s: Symbol)
    requires Invariant(g, a) && (Predefined(s) || s in a.valid)
    ensures Known(a, s)
  {
  }

  lemma {:induction false} StepKnown(g: Graph, rank: Ranking, a: State, b: State, s: Symbol, n: nat)
    requires Step(g, rank, a, b, n, Some(s)) && Known(a, s)
    ensures Known(b, s)
  {
  }

  lemma {:induction false} MemoLower(g: Graph, rank: Ranking, a: State, m: nat, n: nat)
    requires Memo(g, rank, a, n) && (Ranked(g, rank) ==> m <= n)
    ensures Memo(g, rank, a, m)
  {
  }

  lemma {:induction false} WriteStep(g: Graph, rank: Ranking, a: State, s: Symbol, n: nat)
    requires Invariant(g, a) && Memo(g, rank, a, n) && s in g.info
    requires Ranked(g, rank) ==> Rank(rank, s) == n
    ensures Step(g, rank, a, a.(write := a.write + {s}), n, Some(s))
  {
  }

  lemma {:induction false} CurrStep(g: Graph, rank: Ranking, a: State, s: Symbol, v: Value, n: nat)
    requires Invariant(g, a) && Memo(g, rank, a, n) && s in g.info && (s.kind.Boolean? ==> v.tri != MOD)
    requires Ranked(g, rank) ==> Rank(rank, s) == n
    ensures Step(g, rank, a, a.(curr := a.curr[s := v]), n, Some(s))
  {
  }

  lemma {:induction false} NameStep(g: Graph, rank: Ranking, a: State, s: Symbol, n: nat)
    requires Invariant(g, a) && Memo(g, rank, a, n) && !Typed(s)
    ensures Step(g, rank, a, a.(curr := a.curr[s := Constant(s)]), n, None)
  {
    var b := a.(curr := a.curr[s := Constant(s)]);
    assert forall t <- g.info :: Typed(t);
    assert forall t <- g.info :: Same(a, b, t);
    if Ranked(g, rank) {
      forall t <- b.valid | t in g.info && Rank(rank, t) < n
        ensures Right(g, rank, b, t)
      {
        assert Right(g, rank, a, t);
      }
    }
  }

  /** Marking s leaves the memory below its rank right. */
  lemma {:induction false} MarkStep(g: Graph, rank: Ranking, a: State, s: Symbol, n: nat)
    requires Invariant(g, a) && s in g.info && s !in a.valid
    requires Ranked(g, rank) ==> Rank(rank, s) == n && Memo(g, rank, a, n)
    ensures Step(g, rank, a, a.(valid := a.valid + {s}, write := a.write - {s}), n, Some(s))
  {
  }

  /** A symbol of rank m that is computed completely extends the right memory. */
  lemma {:induction false} StepRaise(g: Graph, rank: Ranking, a: State, b: State, s: Symbol, m: nat, n: nat)
    requires Memo(g, rank, a, n) && s in g.info
    requires Step(g, rank, a, b, m, Some(s))
    requires Ranked(g, rank) ==> Rank(rank, s) == m < n && Right(g, rank, b, s)
    ensures Step(g, rank, a, b, n, None)
  {
  }
}
