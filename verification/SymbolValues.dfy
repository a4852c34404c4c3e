/** What the value of a configuration symbol is when its dependencies have no cycle. */
module SymbolValues {
  import opened Options
  import opened Expr

  /** A symbol value has a string and a tristate part. */
  datatype Value = Value(str: string, tri: Tristate)

  datatype Default = Default(visible: Option<Expr>, def: Symbol)

  /** What the configuration says about a symbol: the conditions of its prompts, its defaults,
      whether it may be n although visible, and the user's value if there is one. A missing
      condition counts as y. */
  datatype Info = Info(prompts: seq<Option<Expr>>, defaults: seq<Default>, optional: bool, user: Option<Value>)

  /** All symbols with their properties; modules is the symbol that enables m. */
  datatype Graph = Graph(info: map<Symbol, Info>, modules: Symbol)

  /** Symbols that are computed and then flagged SYMBOL_VALID. */
  predicate Typed(s: Symbol) {
    s.Config? && !s.kind.Unknown?
  }

  predicate IsBoolOrTri(s: Symbol) {
    s.Config? && (s.kind.Boolean? || s.kind.Tristated?)
  }

  ghost predicate InTable(g: Graph, s: Symbol) {
    Typed(s) ==> s in g.info
  }

  /** Every typed symbol mentioned is in the table. */
  ghost predicate Within(g: Graph, e: Expr) {
    match e
    case Sym(s) => InTable(g, s)
    case Not(x) => Within(g, x)
    case Equal(a, b) => InTable(g, a) && InTable(g, b)
    case Unequal(a, b) => InTable(g, a) && InTable(g, b)
    case Bin(_, l, r) => Within(g, l) && Within(g, r)
  }

  ghost predicate WithinOpt(g: Graph, e: Option<Expr>) {
    e.Some? ==> Within(g, e.value)
  }

  ghost predicate InfoWithin(g: Graph, i: Info) {
    && (forall k :: 0 <= k < |i.prompts| ==> WithinOpt(g, i.prompts[k]))
    && (forall k :: 0 <= k < |i.defaults| ==> WithinOpt(g, i.defaults[k].visible) && InTable(g, i.defaults[k].def))
  }

  ghost predicate Closed(g: Graph) {
    InTable(g, g.modules) && forall s <- g.info :: Typed(s) && InfoWithin(g, g.info[s])
  }

  /** The values that need no computation. */
  function Constant(s: Symbol): Value {
    match s
    case Yes => Value("y", YES)
    case Mod => Value("m", MOD)
    case No => Value("n", NO)
    case Literal(text) => Value(text, NO)
    case Config(name, _) => Value(name, NO)
  }

  /** sym_get_string_value. */
  function StringOf(s: Symbol, v: Value): string {
    if IsBoolOrTri(s) then Letter(v.tri) else v.str
  }

  function Initial(s: Symbol): Value {
    if IsBoolOrTri(s) then Value("n", NO) else Value("", NO)
  }

  /** The user's value, or the default's, limited by the visibility. */
  function Limit(v: Value, visible: Tristate, optional: bool): Value {
    var tri := Apply(And, v.tri, visible);
    v.(tri := if !optional && tri == NO then visible else tri)
  }

  /** The last switch: m becomes y for a boolean symbol, and for a tristate one without modules. */
  function Promote(v: Value): Value {
    if v.tri == MOD then v.(tri := YES) else v
  }

  // ---- Acyclic configurations ----

  type Ranking = map<Symbol, nat>

  ghost function Rank(rank: Ranking, s: Symbol): nat {
    if s in rank then rank[s] else 0
  }

  ghost predicate SymBelow(rank: Ranking, s: Symbol, n: nat) {
    Typed(s) ==> Rank(rank, s) < n
  }

  /** Every typed symbol mentioned has a rank below n. */
  ghost predicate Below(rank: Ranking, e: Expr, n: nat) {
    match e
    case Sym(s) => SymBelow(rank, s, n)
    case Not(x) => Below(rank, x, n)
    case Equal(a, b) => SymBelow(rank, a, n) && SymBelow(rank, b, n)
    case Unequal(a, b) => SymBelow(rank, a, n) && SymBelow(rank, b, n)
    case Bin(_, l, r) => Below(rank, l, n) && Below(rank, r, n)
  }

  ghost predicate OptBelow(rank: Ranking, e: Option<Expr>, n: nat) {
    e.Some? ==> Below(rank, e.value, n)
  }

  ghost predicate InfoBelow(rank: Ranking, i: Info, n: nat) {
    && (forall k :: 0 <= k < |i.prompts| ==> OptBelow(rank, i.prompts[k], n))
    && (forall k :: 0 <= k < |i.defaults| ==>
          OptBelow(rank, i.defaults[k].visible, n) && SymBelow(rank, i.defaults[k].def, n))
  }

  /** The graph has no cycle: what a symbol depends on has a lower rank. */
  ghost predicate Ranked(g: Graph, rank: Ranking) {
    && Closed(g)
    && forall s <- g.info ::
         && InfoBelow(rank, g.info[s], Rank(rank, s))
         && (s.kind.Tristated? ==> SymBelow(rank, g.modules, Rank(rank, s)))
  }

  /** The value of a symbol of a rank below n. */
  ghost function ValueOf(g: Graph, rank: Ranking, s: Symbol, n: nat): Value
    requires Ranked(g, rank) && InTable(g, s) && SymBelow(rank, s, n)
    decreases n, 0
  {
    if Typed(s) then SymbolValue(g, rank, s) else Constant(s)
  }

  ghost function ExprValue(g: Graph, rank: Ranking, e: Expr, n: nat): Tristate
    requires Ranked(g, rank) && Within(g, e) && Below(rank, e, n)
    decreases n, 1, e
  {
    match e
    case Sym(s) => ValueOf(g, rank, s, n).tri
    case Not(x) => 2 - ExprValue(g, rank, x, n)
    case Equal(a, b) =>
      Truth(StringOf(a, ValueOf(g, rank, a, n)) == StringOf(b, ValueOf(g, rank, b, n)))
    case Unequal(a, b) =>
      Truth(StringOf(a, ValueOf(g, rank, a, n)) != StringOf(b, ValueOf(g, rank, b, n)))
    case Bin(op, l, r) => Apply(op, ExprValue(g, rank, l, n), ExprValue(g, rank, r, n))
  }

  ghost function ConditionValue(g: Graph, rank: Ranking, e: Option<Expr>, n: nat): Tristate
    requires Ranked(g, rank) && WithinOpt(g, e) && OptBelow(rank, e, n)
    decreases n, 2
  {
    if e.Some? then ExprValue(g, rank, e.value, n) else YES
  }

  /** The highest of the first k prompt conditions. */
  ghost function Visibility(g: Graph, rank: Ranking, i: Info, n: nat, k: nat): Tristate
    requires Ranked(g, rank) && InfoWithin(g, i) && InfoBelow(rank, i, n) && k <= |i.prompts|
    decreases n, 3, k
  {
    if k == 0 then NO
    else Apply(Or, Visibility(g, rank, i, n, k - 1), ConditionValue(g, rank, i.prompts[k - 1], n))
  }

  /** The first default from k on whose condition is not n. */
  ghost function FirstDefault(g: Graph, rank: Ranking, i: Info, n: nat, k: nat): (d: Option<Symbol>)
    requires Ranked(g, rank) && InfoWithin(g, i) && InfoBelow(rank, i, n) && k <= |i.defaults|
    ensures d.Some? ==> InTable(g, d.value) && SymBelow(rank, d.value, n)
    decreases n, 3, |i.defaults| - k
  {
    if k == |i.defaults| then None
    else if ConditionValue(g, rank, i.defaults[k].visible, n) != NO then Some(i.defaults[k].def)
    else FirstDefault(g, rank, i, n, k + 1)
  }

  ghost function VisibilityOf(g: Graph, rank: Ranking, s: Symbol): Tristate
    requires Ranked(g, rank) && s in g.info
    decreases Rank(rank, s), 4
  {
    Visibility(g, rank, g.info[s], Rank(rank, s), |g.info[s].prompts|)
  }

  ghost function DefaultOf(g: Graph, rank: Ranking, s: Symbol): (d: Option<Symbol>)
    requires Ranked(g, rank) && s in g.info
    ensures d.Some? ==> InTable(g, d.value) && SymBelow(rank, d.value, Rank(rank, s))
    decreases Rank(rank, s), 4
  {
    FirstDefault(g, rank, g.info[s], Rank(rank, s), 0)
  }

  /** The default's value, or the empty one. */
  ghost function DefaultValue(g: Graph, rank: Ranking, s: Symbol): Value
    requires Ranked(g, rank) && s in g.info
    decreases Rank(rank, s), 5
  {
    var d := DefaultOf(g, rank, s);
    if d.Some? then ValueOf(g, rank, d.value, Rank(rank, s)) else Initial(s)
  }

  /** Whether m is not available to the symbol. */
  ghost predicate IsTwoValued(g: Graph, rank: Ranking, s: Symbol)
    requires Ranked(g, rank) && s in g.info
    decreases Rank(rank, s), 5
  {
    || s.kind.Boolean?
    || (s.kind.Tristated? && ValueOf(g, rank, g.modules, Rank(rank, s)).tri == NO)
  }

  /** The value before m is ruled out. */
  ghost function Chosen(g: Graph, rank: Ranking, s: Symbol): Value
    requires Ranked(g, rank) && s in g.info
    decreases Rank(rank, s), 6
  {
    var i, v := g.info[s], VisibilityOf(g, rank, s);
    if v == NO then DefaultValue(g, rank, s)
    else Limit(if i.user.Some? then i.user.value else DefaultValue(g, rank, s), v, i.optional)
  }

  ghost function SymbolValue(g: Graph, rank: Ranking, s: Symbol): Value
    requires Ranked(g, rank) && s in g.info
    decreases Rank(rank, s), 7
  {
    if IsTwoValued(g, rank, s) then Promote(Chosen(g, rank, s)) else Chosen(g, rank, s)
  }

  /** Whether the symbol gets a line in the configuration file. */
  ghost predicate IsWritten(g: Graph, rank: Ranking, s: Symbol)
    requires Ranked(g, rank) && s in g.info
  {
    VisibilityOf(g, rank, s) != NO || DefaultOf(g, rank, s).Some?
  }

  // ---- What the value is ----

  /** v is the highest value of a prompt condition, n without a prompt. */
  ghost predicate IsHighestPrompt(g: Graph, rank: Ranking, s: Symbol, v: Tristate)
    requires Ranked(g, rank) && s in g.info
  {
    var prompts, n := g.info[s].prompts, Rank(rank, s);
    && (forall k :: 0 <= k < |prompts| ==> ConditionValue(g, rank, prompts[k], n) <= v)
    && (v == NO || exists k :: 0 <= k < |prompts| && ConditionValue(g, rank, prompts[k], n) == v)
  }

  ghost predicate Holds(g: Graph, rank: Ranking, s: Symbol, k: nat)
    requires Ranked(g, rank) && s in g.info && k < |g.info[s].defaults|
  {
    ConditionValue(g, rank, g.info[s].defaults[k].visible, Rank(rank, s)) != NO
  }

  /** The k-th default is the first one whose condition holds, and start is its value. */
  ghost predicate IsFromDefault(g: Graph, rank: Ranking, s: Symbol, k: nat, start: Value)
    requires Ranked(g, rank) && s in g.info && k < |g.info[s].defaults|
  {
    && Holds(g, rank, s, k) && (forall j :: 0 <= j < k ==> !Holds(g, rank, s, j))
    && start == ValueOf(g, rank, g.info[s].defaults[k].def, Rank(rank, s))
  }

  /** The value that a symbol of visibility v starts from: the user's if it is visible and the user has
      set one, otherwise that of the first default whose condition holds, otherwise n or "". */
  ghost predicate IsStart(g: Graph, rank: Ranking, s: Symbol, v: Tristate, start: Value)
    requires Ranked(g, rank) && s in g.info
  {
    var i := g.info[s];
    if v != NO && i.user.Some? then start == i.user.value
    else
      || (exists k :: 0 <= k < |i.defaults| && IsFromDefault(g, rank, s, k, start))
      || ((forall k :: 0 <= k < |i.defaults| ==> !Holds(g, rank, s, k))
          && start == Value(if IsBoolOrTri(s) then "n" else "", NO))
  }

  lemma {:induction false} VisibilityIsHighest(g: Graph, rank: Ranking, s: Symbol, k: nat)
    requires Ranked(g, rank) && s in g.info && k <= |g.info[s].prompts|
    ensures var v := Visibility(g, rank, g.info[s], Rank(rank, s), k);
            var prompts, n := g.info[s].prompts, Rank(rank, s);
            && (forall j :: 0 <= j < k ==> ConditionValue(g, rank, prompts[j], n) <= v)
            && (v == NO || exists j :: 0 <= j < k && ConditionValue(g, rank, prompts[j], n) == v)
  {
    if k > 0 {
      VisibilityIsHighest(g, rank, s, k - 1);
    }
  }

  lemma {:induction false} FirstDefaultHolds(g: Graph, rank: Ranking, s: Symbol, k: nat)
    requires Ranked(g, rank) && s in g.info && k <= |g.info[s].defaults|
    ensures var d := FirstDefault(g, rank, g.info[s], Rank(rank, s), k);
            var defaults := g.info[s].defaults;
            if d.None? then forall j :: k <= j < |defaults| ==> !Holds(g, rank, s, j)
            else exists j :: k <= j < |defaults| && Holds(g, rank, s, j) && d.value == defaults[j].def
                             && forall l :: k <= l < j ==> !Holds(g, rank, s, l)
    decreases |g.info[s].defaults| - k
  {
    if k < |g.info[s].defaults| {
      assert Holds(g, rank, s, k) <==>
          ConditionValue(g, rank, g.info[s].defaults[k].visible, Rank(rank, s)) != NO;
      if !Holds(g, rank, s, k) {
        FirstDefaultHolds(g, rank, s, k + 1);
      }
    }
  }

  /** There is one highest prompt, and one value to start from. */
  lemma {:induction false} StartUnique(g: Graph, rank: Ranking, s: Symbol, v: Tristate, start: Value)
    requires Ranked(g, rank) && s in g.info
    requires IsHighestPrompt(g, rank, s, v) && IsStart(g, rank, s, v, start)
    ensures v == VisibilityOf(g, rank, s)
    ensures start == if v != NO && g.info[s].user.Some? then g.info[s].user.value else DefaultValue(g, rank, s)
  {
    VisibilityIsHighest(g, rank, s, |g.info[s].prompts|);
    if v == NO || g.info[s].user.None? {
      FirstDefaultHolds(g, rank, s, 0);
      DefaultUnique(g, rank, s, start);
    }
  }

  lemma {:induction false} DefaultUnique(g: Graph, rank: Ranking, s: Symbol, start: Value)
    requires Ranked(g, rank) && s in g.info
    requires var defaults := g.info[s].defaults;
             || (exists k :: 0 <= k < |defaults| && IsFromDefault(g, rank, s, k, start))
             || ((forall k :: 0 <= k < |defaults| ==> !Holds(g, rank, s, k))
                 && start == Value(if IsBoolOrTri(s) then "n" else "", NO))
    ensures start == DefaultValue(g, rank, s)
  {
    var defaults, d := g.info[s].defaults, DefaultOf(g, rank, s);
    FirstDefaultHolds(g, rank, s, 0);
    if k :| 0 <= k < |defaults| && IsFromDefault(g, rank, s, k, start) {
      assert Holds(g, rank, s, k) && d.Some?;
      var j :| 0 <= j < |defaults| && Holds(g, rank, s, j) && d.value == defaults[j].def
               && forall l :: 0 <= l < j ==> !Holds(g, rank, s, l);
      assert j == k;
    } else {
      assert d.None?;
    }
  }

  /** The value of a symbol, from its conditions, defaults and the user's value: the string is that of
      the value it starts from; so is the tristate part if it is invisible. If it is visible the
      tristate part is bounded by the visibility, or is the visibility where that gives n and the
      symbol is not optional. Last, m is raised to y where m is not available. */
  lemma {:induction false} SymbolValueIs(g: Graph, rank: Ranking, s: Symbol, v: Tristate, start: Value)
    requires Ranked(g, rank) && s in g.info
    requires IsHighestPrompt(g, rank, s, v) && IsStart(g, rank, s, v, start)
    ensures var bounded := if start.tri < v then start.tri else v;
            var tri := if v == NO then start.tri
                       else if bounded == NO && !g.info[s].optional then v
                       else bounded;
            var noMod := s.kind.Boolean? ||
                         (s.kind.Tristated? && ValueOf(g, rank, g.modules, Rank(rank, s)).tri == NO);
            SymbolValue(g, rank, s) == Value(start.str, if tri == MOD && noMod then YES else tri)
  {
    StartUnique(g, rank, s, v, start);
    assert Chosen(g, rank, s) == if v == NO then start else Limit(start, v, g.info[s].optional);
  }

  /** Every symbol has a highest prompt and a value to start from; it is written exactly if a prompt or
      a default has a condition that holds. A prompt without a condition is always visible, and a
      default without one always holds. */
  lemma {:induction false} StartExists(g: Graph, rank: Ranking, s: Symbol) returns (v: Tristate, start: Value)
    requires Ranked(g, rank) && s in g.info
    ensures IsHighestPrompt(g, rank, s, v) && IsStart(g, rank, s, v, start)
    ensures IsWritten(g, rank, s) <==>
              || (exists k :: 0 <= k < |g.info[s].prompts| &&
                    ConditionValue(g, rank, g.info[s].prompts[k], Rank(rank, s)) != NO)
              || (exists k :: 0 <= k < |g.info[s].defaults| && Holds(g, rank, s, k))
    ensures None in g.info[s].prompts ==> v == YES
    ensures forall k :: 0 <= k < |g.info[s].defaults| && g.info[s].defaults[k].visible.None? ==> Holds(g, rank, s, k)
  {
    var i := g.info[s];
    v := VisibilityOf(g, rank, s);
    VisibilityIsHighest(g, rank, s, |i.prompts|);
    FirstDefaultHolds(g, rank, s, 0);
    start := if v != NO && i.user.Some? then i.user.value else DefaultValue(g, rank, s);
    var d := DefaultOf(g, rank, s);
    if d.Some? {
      var k :| 0 <= k < |i.defaults| && Holds(g, rank, s, k) && d.value == i.defaults[k].def
               && forall l :: 0 <= l < k ==> !Holds(g, rank, s, l);
      assert IsFromDefault(g, rank, s, k, DefaultValue(g, rank, s));
    }
  }

  // ---- The same values as an environment ----

  ghost function EnvOf(g: Graph, rank: Ranking): Env
    requires Ranked(g, rank)
  {
    Env(set s <- g.info | s.kind.Boolean? && SymbolValue(g, rank, s).tri == YES,
        map s <- g.info :: SymbolValue(g, rank, s).tri,
        map s <- g.info :: SymbolValue(g, rank, s).str, false)
  }

  /** m never reaches a symbol that cannot have it, a visible symbol that is not optional is not
      n, and apart from m being lifted to y a visible symbol stays within its visibility. */
  lemma {:induction false} SymbolValueBounds(g: Graph, rank: Ranking, s: Symbol)
    requires Ranked(g, rank) && s in g.info
    ensures IsTwoValued(g, rank, s) ==> SymbolValue(g, rank, s).tri != MOD
    ensures VisibilityOf(g, rank, s) != NO && !g.info[s].optional ==> SymbolValue(g, rank, s).tri != NO
    ensures VisibilityOf(g, rank, s) != NO && SymbolValue(g, rank, s).tri > VisibilityOf(g, rank, s) ==>
              VisibilityOf(g, rank, s) == MOD && IsTwoValued(g, rank, s)
  {
    var v, c := VisibilityOf(g, rank, s), Chosen(g, rank, s);
    assert v != NO ==> c.tri <= v;
    assert SymbolValue(g, rank, s) == if IsTwoValued(g, rank, s) then Promote(c) else c;
  }

  lemma {:induction false} EnvOfSymbol(g: Graph, rank: Ranking, s: Symbol, n: nat)
    requires Ranked(g, rank) && InTable(g, s) && SymBelow(rank, s, n)
    ensures TriOf(EnvOf(g, rank), s) == ValueOf(g, rank, s, n).tri
    ensures StrOf(EnvOf(g, rank), s) == StringOf(s, ValueOf(g, rank, s, n))
  {
    if Typed(s) && s.kind.Boolean? {
      SymbolValueBounds(g, rank, s);
    }
  }

  /** Evaluating a condition in a configuration is evaluating the expression where every symbol
      has its value: what the expression rewriting preserves is what sym_calc_value sees. */
  lemma {:induction false} ExprValueIsEval(g: Graph, rank: Ranking, e: Expr, n: nat)
    requires Ranked(g, rank) && Within(g, e) && Below(rank, e, n)
    ensures ExprValue(g, rank, e, n) == Eval(EnvOf(g, rank), e)
  {
    match e
    case Sym(s) => EnvOfSymbol(g, rank, s, n);
    case Not(x) => ExprValueIsEval(g, rank, x, n);
    case Equal(a, b) =>
      EnvOfSymbol(g, rank, a, n);
      EnvOfSymbol(g, rank, b, n);
    case Unequal(a, b) =>
      EnvOfSymbol(g, rank, a, n);
      EnvOfSymbol(g, rank, b, n);
    case Bin(_, l, r) =>
      ExprValueIsEval(g, rank, l, n);
      ExprValueIsEval(g, rank, r, n);
  }

  // ---- The value belongs to the configuration, not to the ranking ----

  ghost predicate Both(g: Graph, q: Ranking, r: Ranking) {
    Ranked(g, q) && Ranked(g, r)
  }

  lemma {:induction false} SameExprValue(g: Graph, q: Ranking, r: Ranking, e: Expr, m: nat, n: nat)
    requires Both(g, q, r) && Within(g, e) && Below(q, e, m) && Below(r, e, n)
    ensures ExprValue(g, q, e, m) == ExprValue(g, r, e, n)
    decreases m, 1, e
  {
    match e
    case Sym(s) => SameValueOf(g, q, r, s, m, n);
    case Not(x) => SameExprValue(g, q, r, x, m, n);
    case Equal(a, b) =>
      SameValueOf(g, q, r, a, m, n);
      SameValueOf(g, q, r, b, m, n);
    case Unequal(a, b) =>
      SameValueOf(g, q, r, a, m, n);
      SameValueOf(g, q, r, b, m, n);
    case Bin(_, x, y) =>
      SameExprValue(g, q, r, x, m, n);
      SameExprValue(g, q, r, y, m, n);
  }

  lemma {:induction false} SameValueOf(g: Graph, q: Ranking, r: Ranking, s: Symbol, m: nat, n: nat)
    requires Both(g, q, r) && InTable(g, s) && SymBelow(q, s, m) && SymBelow(r, s, n)
    ensures ValueOf(g, q, s, m) == ValueOf(g, r, s, n)
    decreases m, 0
  {
    if Typed(s) {
      SameSymbolValue(g, q, r, s);
    }
  }

  lemma {:induction false} SameCondition(g: Graph, q: Ranking, r: Ranking, e: Option<Expr>, m: nat, n: nat)
    requires Both(g, q, r) && WithinOpt(g, e) && OptBelow(q, e, m) && OptBelow(r, e, n)
    ensures ConditionValue(g, q, e, m) == ConditionValue(g, r, e, n)
    decreases m, 2
  {
    if e.Some? {
      SameExprValue(g, q, r, e.value, m, n);
    }
  }

  lemma {:induction false} SameVisibility(g: Graph, q: Ranking, r: Ranking, i: Info, m: nat, n: nat, k: nat)
    requires Both(g, q, r) && InfoWithin(g, i) && InfoBelow(q, i, m) && InfoBelow(r, i, n) && k <= |i.prompts|
    ensures Visibility(g, q, i, m, k) == Visibility(g, r, i, n, k)
    decreases m, 3, k
  {
    if k > 0 {
      SameVisibility(g, q, r, i, m, n, k - 1);
      SameCondition(g, q, r, i.prompts[k - 1], m, n);
    }
  }

  lemma {:induction false} SameDefault(g: Graph, q: Ranking, r: Ranking, i: Info, m: nat, n: nat, k: nat)
    requires Both(g, q, r) && InfoWithin(g, i) && InfoBelow(q, i, m) && InfoBelow(r, i, n) && k <= |i.defaults|
    ensures FirstDefault(g, q, i, m, k) == FirstDefault(g, r, i, n, k)
    decreases m, 3, |i.defaults| - k
  {
    if k < |i.defaults| {
      SameCondition(g, q, r, i.defaults[k].visible, m, n);
      SameDefault(g, q, r, i, m, n, k + 1);
    }
  }

  /** Two ways to see that the configuration has no cycle give every symbol the same value. */
  lemma {:induction false} SameSymbolValue(g: Graph, q: Ranking, r: Ranking, s: Symbol)
    requires Both(g, q, r) && s in g.info
    ensures SymbolValue(g, q, s) == SymbolValue(g, r, s)
    decreases Rank(q, s), 4
  {
    var i, m, n := g.info[s], Rank(q, s), Rank(r, s);
    SameVisibility(g, q, r, i, m, n, |i.prompts|);
    SameDefault(g, q, r, i, m, n, 0);
    var d := DefaultOf(g, q, s);
    assert d == DefaultOf(g, r, s);
    if d.Some? {
      SameValueOf(g, q, r, d.value, m, n);
    }
    assert DefaultValue(g, q, s) == DefaultValue(g, r, s);
    assert VisibilityOf(g, q, s) == VisibilityOf(g, r, s);
    if s.kind.Tristated? {
      SameValueOf(g, q, r, g.modules, m, n);
    }
    assert Chosen(g, q, s) == Chosen(g, r, s);
  }
}
