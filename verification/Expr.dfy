/** Kconfig dependency expressions over three-valued logic (n < m < y), and their value. */
module Expr {

  /** no, mod and yes are 0, 1 and 2. */
  type Tristate = x: int | 0 <= x <= 2

  const NO: Tristate := 0
  const MOD: Tristate := 1
  const YES: Tristate := 2

  datatype SymbolKind = Unknown | Boolean | Tristated | Integer | Hexadecimal | Text

  /** A symbol is identified by what the symbol table interns it under: the three constants,
      a quoted string constant, or a configuration symbol. */
  datatype RawSymbol =
    | Yes
    | Mod
    | No
    | Literal(text: string)
    | Config(name: string, kind: SymbolKind)

  /** The one-letter names y, m and n always denote the three constants. */
  type Symbol = s: RawSymbol |
    (s.Literal? ==> s.text != "y" && s.text != "m" && s.text != "n")
    witness Yes

  datatype Op = And | Or

  datatype Expr =
    | Sym(sym: Symbol)
    | Not(arg: Expr)
    | Equal(lhs: Symbol, rhs: Symbol)
    | Unequal(lhs: Symbol, rhs: Symbol)
    | Bin(op: Op, left: Expr, right: Expr)

  /** Current symbol values: the boolean symbols that are y, the tristate part of the other
      configuration symbols, and the string value of the non-boolean ones. A lifted environment
      reads m as y where a symbol stands as an operand, as it counts for a symbol that cannot be
      m; comparisons still see m. Every law that holds in all environments holds in both readings. */
  datatype Env = Env(on: set<Symbol>, tri: map<Symbol, Tristate>, str: map<Symbol, string>, lifted: bool)

  /** The tristate part of a symbol value. */
  function PlainTri(env: Env, s: Symbol): Tristate {
    match s
    case Yes => YES
    case Mod => MOD
    case No => NO
    case Literal(_) => NO
    case Config(_, Unknown) => NO
    case Config(_, Boolean) => if s in env.on then YES else NO
    case Config(_, _) => if s in env.tri then env.tri[s] else NO
  }

  /** What a symbol counts as an operand. */
  function TriOf(env: Env, s: Symbol): Tristate {
    var v := PlainTri(env, s);
    if env.lifted && s.Config? && v == MOD then YES else v
  }

  function Letter(v: Tristate): string {
    if v == NO then "n" else if v == MOD then "m" else "y"
  }

  /** The string that a comparison looks at. */
  function StrOf(env: Env, s: Symbol): string {
    match s
    case Yes => "y"
    case Mod => "m"
    case No => "n"
    case Literal(text) => text
    case Config(name, Unknown) => name
    case Config(_, Boolean) => Letter(PlainTri(env, s))
    case Config(_, Tristated) => Letter(PlainTri(env, s))
    case Config(_, _) => if s in env.str then env.str[s] else ""
  }

  function Apply(op: Op, a: Tristate, b: Tristate): Tristate {
    if op == And then (if a < b then a else b) else (if a > b then a else b)
  }

  function Truth(b: bool): Tristate {
    if b then YES else NO
  }

  function Eval(env: Env, e: Expr): Tristate {
    match e
    case Sym(s) => TriOf(env, s)
    case Not(x) => 2 - Eval(env, x)
    case Equal(a, b) => Truth(StrOf(env, a) == StrOf(env, b))
    case Unequal(a, b) => Truth(StrOf(env, a) != StrOf(env, b))
    case Bin(op, l, r) => Apply(op, Eval(env, l), Eval(env, r))
  }

  /** The constant that an operand of op may be dropped for, and the one that decides it. */
  function Identity(op: Op): Symbol {
    if op == And then Yes else No
  }

  function Absorbing(op: Op): Symbol {
    if op == And then No else Yes
  }

  function Dual(op: Op): Op {
    if op == And then Or else And
  }

  predicate IsOp(op: Op, e: Expr) {
    e.Bin? && e.op == op
  }

  /** The operand is one of the constants y and n. */
  predicate IsYn(e: Expr) {
    e == Sym(Yes) || e == Sym(No)
  }

  /** SYMBOL_CONST: a value that no configuration changes. */
  predicate IsConst(s: Symbol) {
    !s.Config?
  }

  /** SYMBOL_YES or SYMBOL_NO is set: string constants carry all three constant flags. */
  predicate HasYesNoFlag(s: Symbol) {
    s.Yes? || s.No? || s.Literal?
  }

  function Size(e: Expr): nat {
    match e
    case Not(x) => 1 + Size(x)
    case Bin(_, l, r) => 1 + Size(l) + Size(r)
    case _ => 1
  }

  /** Number of AND and OR nodes that are not below a NOT. */
  function Bins(e: Expr): nat {
    match e
    case Bin(_, l, r) => 1 + Bins(l) + Bins(r)
    case _ => 0
  }

  ghost function SymbolsOf(e: Expr): set<Symbol> {
    match e
    case Sym(s) => {s}
    case Not(x) => SymbolsOf(x)
    case Equal(a, b) => {a, b}
    case Unequal(a, b) => {a, b}
    case Bin(_, l, r) => SymbolsOf(l) + SymbolsOf(r)
  }

  /** The expression and everything inside it. */
  ghost function Subexpressions(e: Expr): set<Expr> {
    match e
    case Not(x) => {e} + Subexpressions(x)
    case Bin(_, l, r) => {e} + Subexpressions(l) + Subexpressions(r)
    case _ => {e}
  }

  /** b is what a may settle to: n and y stay, only m may become definite. */
  predicate Settles(a: Tristate, b: Tristate) {
    a == MOD || a == b
  }

  lemma ApplyLaws(op: Op, a: Tristate, b: Tristate, c: Tristate)
    ensures Apply(op, a, b) == Apply(op, b, a)
    ensures Apply(op, Apply(op, a, b), c) == Apply(op, a, Apply(op, b, c))
    ensures Apply(op, a, a) == a
  {
  }
}
