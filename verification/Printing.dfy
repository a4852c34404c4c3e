/** expr_print, and the expression grammar that reads its output back. */
module Printing {
  import opened Expr
  import opened Chains

  datatype Kind = NoneKind | OrKind | AndKind | NotKind | EqualKind | UnequalKind | ChoiceKind | SymbolKind

  function KindOf(e: Expr): Kind {
    match e
    case Sym(_) => SymbolKind
    case Not(_) => NotKind
    case Equal(_, _) => EqualKind
    case Unequal(_, _) => UnequalKind
    case Bin(op, _, _) => if op == And then AndKind else OrKind
  }

  /** expr_compare_type; each case falls through to the next one. */
  function CompareType(t1: Kind, t2: Kind): int {
    if t1 == t2 then 0
    else match t1
      case EqualKind => if t2 == NotKind then 1 else BelowNot(t2)
      case UnequalKind => if t2 == NotKind then 1 else BelowNot(t2)
      case NotKind => BelowNot(t2)
      case AndKind => BelowAnd(t2)
      case OrKind => BelowOr(t2)
      case ChoiceKind => if t2 == NoneKind then 1 else -1
      case _ => -1
  }

  function BelowNot(t2: Kind): int {
    if t2 == AndKind then 1 else BelowAnd(t2)
  }

  function BelowAnd(t2: Kind): int {
    if t2 == OrKind then 1 else BelowOr(t2)
  }

  function BelowOr(t2: Kind): int {
    if t2 == ChoiceKind || t2 == NoneKind then 1 else -1
  }

  datatype Token = Word(sym: Symbol) | TNot | TAnd | TOr | TEqual | TUnequal | Open | Close

  /** expr_print below an operator of kind prev, with symbols still in the place of their names. */
  function Print(e: Expr, prev: Kind): seq<Token>
    decreases e, 1
  {
    if CompareType(prev, KindOf(e)) > 0 then [Open] + Body(e) + [Close] else Body(e)
  }

  function Body(e: Expr): seq<Token>
    decreases e, 0
  {
    match e
    case Sym(s) => [Word(s)]
    case Not(x) => [TNot] + Print(x, NotKind)
    case Equal(a, b) => [Word(a), TEqual, Word(b)]
    case Unequal(a, b) => [Word(a), TUnequal, Word(b)]
    case Bin(Or, l, r) => Print(l, OrKind) + [TOr] + Print(r, OrKind)
    case Bin(And, l, r) => Print(l, AndKind) + [TAnd] + Print(r, AndKind)
  }

  /** Where the grammar needs parentheses: around AND and OR below NOT, and OR below AND. */
  predicate Needed(prev: Kind, e: Expr) {
    (prev == NotKind && e.Bin?) || (prev == AndKind && IsOp(Or, e))
  }

  function NeededIn(e: Expr, prev: Kind): nat {
    (if Needed(prev, e) then 1 else 0) +
    match e
    case Not(x) => NeededIn(x, NotKind)
    case Bin(_, l, r) => NeededIn(l, KindOf(e)) + NeededIn(r, KindOf(e))
    case _ => 0
  }

  /** Names and operators. */
  function Signs(e: Expr): nat {
    match e
    case Sym(_) => 1
    case Not(x) => 1 + Signs(x)
    case Bin(_, l, r) => 1 + Signs(l) + Signs(r)
    case _ => 3
  }

  /** There are parentheses where they are needed and nowhere else. */
  lemma {:induction false} PrintLength(e: Expr, prev: Kind)
    requires prev in [NoneKind, OrKind, AndKind, NotKind]
    ensures |Print(e, prev)| == Signs(e) + 2 * NeededIn(e, prev)
  {
    hide CompareType;
    ComparesNeeded(prev, e);
    match e
    case Not(x) => PrintLength(x, NotKind);
    case Bin(op, l, r) =>
      PrintLength(l, KindOf(e));
      PrintLength(r, KindOf(e));
    case _ =>
  }

  lemma {:induction false} ComparesNeeded(prev: Kind, e: Expr)
    requires prev in [NoneKind, OrKind, AndKind, NotKind]
    ensures CompareType(prev, KindOf(e)) > 0 <==> Needed(prev, e)
  {
  }

  datatype Parse = Error | Parsed(e: Expr, rest: seq<Token>)

  /** Disjunctions, then conjunctions, both associating to the left, then negations. */
  function ParseOr(ts: seq<Token>): (r: Parse)
    ensures r.Parsed? ==> |r.rest| < |ts|
    decreases |ts|, 4
  {
    match ParseAnd(ts)
    case Error => Error
    case Parsed(a, rest) => OrTail(a, rest)
  }

  function OrTail(acc: Expr, ts: seq<Token>): (r: Parse)
    ensures r.Parsed? ==> |r.rest| <= |ts|
    decreases |ts|, 3
  {
    if ts != [] && ts[0] == TOr then
      match ParseAnd(ts[1..])
      case Error => Error
      case Parsed(b, rest) => OrTail(Bin(Or, acc, b), rest)
    else Parsed(acc, ts)
  }

  function ParseAnd(ts: seq<Token>): (r: Parse)
    ensures r.Parsed? ==> |r.rest| < |ts|
    decreases |ts|, 2
  {
    match ParseNot(ts)
    case Error => Error
    case Parsed(a, rest) => AndTail(a, rest)
  }

  function AndTail(acc: Expr, ts: seq<Token>): (r: Parse)
    ensures r.Parsed? ==> |r.rest| <= |ts|
    decreases |ts|, 1
  {
    if ts != [] && ts[0] == TAnd then
      match ParseNot(ts[1..])
      case Error => Error
      case Parsed(b, rest) => AndTail(Bin(And, acc, b), rest)
    else Parsed(acc, ts)
  }

  function ParseNot(ts: seq<Token>): (r: Parse)
    ensures r.Parsed? ==> |r.rest| < |ts|
    decreases |ts|, 0
  {
    if ts == [] then Error
    else match ts[0]
      case TNot => (match ParseNot(ts[1..])
                    case Error => Error
                    case Parsed(x, rest) => Parsed(Not(x), rest))
      case Open => (match ParseOr(ts[1..])
                    case Error => Error
                    case Parsed(x, rest) =>
                      if rest != [] && rest[0] == Close then Parsed(x, rest[1..]) else Error)
      case Word(s) =>
        if Compares(ts[1..]) then
          if |ts| > 2 && ts[2].Word? then
            Parsed(if ts[1] == TEqual then Equal(s, ts[2].sym) else Unequal(s, ts[2].sym), ts[3..])
          else Error
        else Parsed(Sym(s), ts[1..])
      case _ => Error
  }

  predicate Compares(ts: seq<Token>) {
    ts != [] && (ts[0] == TEqual || ts[0] == TUnequal)
  }

  /** The expression with every chain associated to the left. */
  function LeftAssoc(e: Expr): Expr
    decreases e, 1
  {
    match e
    case Not(x) => Not(LeftAssoc(x))
    case Bin(op, l, r) => Attach(op, LeftAssoc(l), r)
    case _ => e
  }

  /** acc op e, one operand of the op-chain e after the other. */
  function Attach(op: Op, acc: Expr, e: Expr): Expr
    decreases e, 2
  {
    if IsOp(op, e) then Attach(op, Attach(op, acc, e.left), e.right)
    else Bin(op, acc, LeftAssoc(e))
  }

  lemma {:induction false} LeftAssocExact(env: Env, e: Expr)
    ensures Eval(env, LeftAssoc(e)) == Eval(env, e)
    decreases e, 1
  {
    match e
    case Not(x) => LeftAssocExact(env, x);
    case Bin(op, l, r) =>
      LeftAssocExact(env, l);
      AttachExact(env, op, LeftAssoc(l), r);
    case _ =>
  }

  lemma {:induction false} AttachExact(env: Env, op: Op, acc: Expr, e: Expr)
    ensures Eval(env, Attach(op, acc, e)) == Apply(op, Eval(env, acc), Eval(env, e))
    decreases e, 2
  {
    if IsOp(op, e) {
      AttachExact(env, op, acc, e.left);
      AttachExact(env, op, Attach(op, acc, e.left), e.right);
    } else {
      LeftAssocExact(env, e);
    }
  }

  /** Where parentheses are printed. */
  lemma {:induction false} PrintCases(e: Expr)
    ensures Print(e, AndKind) == if IsOp(Or, e) then [Open] + Body(e) + [Close] else Body(e)
    ensures Print(e, OrKind) == Body(e)
    ensures CompareType(AndKind, KindOf(e)) > 0 <==> IsOp(Or, e)
  {
  }

  lemma {:induction false} AttachCases(op: Op, acc: Expr, e: Expr)
    ensures IsOp(op, e) ==> Attach(op, acc, e) == Attach(op, Attach(op, acc, e.left), e.right)
    ensures !IsOp(op, e) ==> Attach(op, acc, e) == Bin(op, acc, LeftAssoc(e))
  {
  }

  lemma {:induction false} ParenthesesRead(ts: seq<Token>, e: Expr, rest: seq<Token>)
    requires ParseOr(ts + ([Close] + rest)) == Parsed(e, [Close] + rest)
    ensures ParseNot([Open] + ts + [Close] + rest) == Parsed(e, rest)
  {
    hide ParseOr;
    assert ([Open] + ts + [Close] + rest)[1..] == ts + ([Close] + rest);
    assert ([Close] + rest)[1..] == rest;
  }

  /** An expression printed in parentheses, or one that needs none, is read back as one unit. */
  lemma {:induction false} UnitRead(e: Expr, prev: Kind, rest: seq<Token>)
    requires CompareType(prev, KindOf(e)) > 0 || !e.Bin?
    requires !Compares(rest)
    ensures ParseNot(Print(e, prev) + rest) == Parsed(LeftAssoc(e), rest)
    decreases e, 4
  {
    if CompareType(prev, KindOf(e)) > 0 {
      OrRead(e, [Close] + rest);
      assert OrTail(LeftAssoc(e), [Close] + rest) == Parsed(LeftAssoc(e), [Close] + rest);
      ParenthesesRead(Body(e), LeftAssoc(e), rest);
    } else {
      FlatRead(e, rest);
    }
  }

  lemma {:induction false} FlatRead(e: Expr, rest: seq<Token>)
    requires !e.Bin? && !Compares(rest)
    ensures ParseNot(Body(e) + rest) == Parsed(LeftAssoc(e), rest)
    decreases e, 1
  {
    var ts := Body(e) + rest;
    if e.Not? {
      assert ts[1..] == Print(e.arg, NotKind) + rest;
      UnitRead(e.arg, NotKind, rest);
    } else if e.Sym? {
      assert ts[1..] == rest;
    } else {
      assert ts[3..] == rest;
    }
  }

  lemma {:induction false} BodyCases(e: Expr, rest: seq<Token>)
    ensures IsOp(And, e) ==> Body(e) + rest == Print(e.left, AndKind) + ([TAnd] + Print(e.right, AndKind) + rest)
    ensures IsOp(Or, e) ==> Body(e) + rest == Print(e.left, OrKind) + ([TOr] + Print(e.right, OrKind) + rest)
    ensures e.Bin? ==> LeftAssoc(e) == Attach(e.op, LeftAssoc(e.left), e.right)
  {
    hide Print, CompareType;
  }

  lemma {:induction false} AndFromUnit(ts: seq<Token>, x: Expr, rest: seq<Token>)
    requires ParseNot(ts) == Parsed(x, rest)
    ensures ParseAnd(ts) == AndTail(x, rest)
  {
    hide ParseNot, AndTail;
  }

  /** Reading the text of a conjunction (or of a single operand) collects it as a left operand. */
  lemma {:induction false} AndRead(e: Expr, rest: seq<Token>)
    requires !IsOp(Or, e) && !Compares(rest)
    ensures ParseAnd(Body(e) + rest) == AndTail(LeftAssoc(e), rest)
    decreases e, 2
  {
    hide CompareType, LeftAssoc, Attach, AndTail, ParseAnd, ParseNot, Print, Body;
    BodyCases(e, rest);
    if e.Bin? {
      PrintCases(e.left);
      var more := [TAnd] + Print(e.right, AndKind) + rest;
      if IsOp(Or, e.left) {
        UnitRead(e.left, AndKind, more);
        AndFromUnit(Print(e.left, AndKind) + more, LeftAssoc(e.left), more);
      } else {
        AndRead(e.left, more);
      }
      AndTailRead(LeftAssoc(e.left), e.right, rest);
    } else {
      FlatRead(e, rest);
      AndFromUnit(Body(e) + rest, LeftAssoc(e), rest);
    }
  }

  lemma {:induction false} AndTailRead(acc: Expr, e: Expr, rest: seq<Token>)
    requires !Compares(rest)
    ensures AndTail(acc, [TAnd] + Print(e, AndKind) + rest) == AndTail(Attach(And, acc, e), rest)
    decreases e, 5
  {
    hide CompareType, LeftAssoc, Attach, ParseNot, AndTail, Print, Body;
    PrintCases(e);
    AttachCases(And, acc, e);
    if IsOp(And, e) {
      var more := [TAnd] + Print(e.right, AndKind) + rest;
      BodyCases(e, rest);
      assert [TAnd] + Body(e) + rest == [TAnd] + (Body(e) + rest);
      assert [TAnd] + Print(e.left, AndKind) + more == [TAnd] + (Print(e.left, AndKind) + more);
      AndTailRead(acc, e.left, more);
      AndTailRead(Attach(And, acc, e.left), e.right, rest);
    } else {
      UnitRead(e, AndKind, rest);
      AndTailOne(acc, LeftAssoc(e), Print(e, AndKind), rest);
    }
  }

  lemma {:induction false} AndTailOne(acc: Expr, x: Expr, ts: seq<Token>, rest: seq<Token>)
    requires ParseNot(ts + rest) == Parsed(x, rest)
    ensures AndTail(acc, [TAnd] + ts + rest) == AndTail(Bin(And, acc, x), rest)
  {
    hide ParseNot;
    assert ([TAnd] + ts + rest)[1..] == ts + rest;
  }

  lemma {:induction false} OrFromAnd(ts: seq<Token>, x: Expr, rest: seq<Token>)
    requires ParseAnd(ts) == Parsed(x, rest)
    ensures ParseOr(ts) == OrTail(x, rest)
  {
    hide ParseAnd, OrTail;
  }

  lemma {:induction false} OrRead(e: Expr, rest: seq<Token>)
    requires !Compares(rest) && !(rest != [] && rest[0] == TAnd)
    ensures ParseOr(Body(e) + rest) == OrTail(LeftAssoc(e), rest)
    decreases e, 3
  {
    hide CompareType, LeftAssoc, Attach, OrTail, ParseOr, ParseAnd, AndTail, Print, Body;
    if IsOp(Or, e) {
      var more := [TOr] + Print(e.right, OrKind) + rest;
      BodyCases(e, rest);
      PrintCases(e.left);
      OrRead(e.left, more);
      OrTailRead(LeftAssoc(e.left), e.right, rest);
    } else {
      AndRead(e, rest);
      AndTailEnds(LeftAssoc(e), rest);
      OrFromAnd(Body(e) + rest, LeftAssoc(e), rest);
    }
  }

  lemma {:induction false} OrTailRead(acc: Expr, e: Expr, rest: seq<Token>)
    requires !Compares(rest) && !(rest != [] && rest[0] == TAnd)
    ensures OrTail(acc, [TOr] + Print(e, OrKind) + rest) == OrTail(Attach(Or, acc, e), rest)
    decreases e, 5
  {
    hide CompareType, LeftAssoc, Attach, ParseAnd, AndTail, OrTail, Print, Body;
    PrintCases(e);
    AttachCases(Or, acc, e);
    if IsOp(Or, e) {
      var more := [TOr] + Print(e.right, OrKind) + rest;
      BodyCases(e, rest);
      assert [TOr] + Body(e) + rest == [TOr] + (Body(e) + rest);
      assert [TOr] + Print(e.left, OrKind) + more == [TOr] + (Print(e.left, OrKind) + more);
      OrTailRead(acc, e.left, more);
      OrTailRead(Attach(Or, acc, e.left), e.right, rest);
    } else {
      AndRead(e, rest);
      AndTailEnds(LeftAssoc(e), rest);
      OrTailOne(acc, LeftAssoc(e), Print(e, OrKind), rest);
    }
  }

  lemma {:induction false} OrTailOne(acc: Expr, x: Expr, ts: seq<Token>, rest: seq<Token>)
    requires ParseAnd(ts + rest) == Parsed(x, rest)
    ensures OrTail(acc, [TOr] + ts + rest) == OrTail(Bin(Or, acc, x), rest)
  {
    hide ParseAnd;
    assert ([TOr] + ts + rest)[1..] == ts + rest;
  }

  lemma {:induction false} AndTailEnds(acc: Expr, rest: seq<Token>)
    requires !(rest != [] && rest[0] == TAnd)
    ensures AndTail(acc, rest) == Parsed(acc, rest)
  {
  }

  lemma {:induction false} SymbolsParse(e: Expr)
    ensures ParseOr(Print(e, NoneKind)) == Parsed(LeftAssoc(e), [])
  {
    assert Body(e) + [] == Body(e) == Print(e, NoneKind);
    OrRead(e, []);
  }

  // ---- Names ----

  /** A symbol is printed by its name, a string constant without its quotes. */
  function NameOf(s: Symbol): string {
    match s
    case Yes => "y"
    case Mod => "m"
    case No => "n"
    case Literal(text) => text
    case Config(name, _) => name
  }

  /** What is written: names and signs. */
  datatype Written = Name(text: string) | Sign(token: Token)

  /** The text of an expression. */
  function Names(ts: seq<Token>): seq<Written> {
    seq(|ts|, i requires 0 <= i < |ts| => if ts[i].Word? then Name(NameOf(ts[i].sym)) else Sign(ts[i]))
  }

  /** sym_lookup for a word without quotes, given the kinds of the symbols declared. */
  function Intern(table: map<string, SymbolKind>, name: string): Symbol {
    if name == "y" then Yes else if name == "m" then Mod else if name == "n" then No
    else Config(name, if name in table then table[name] else Unknown)
  }

  /** The names in the text looked up, as the grammar does. */
  function Scan(table: map<string, SymbolKind>, ws: seq<Written>): seq<Token> {
    seq(|ws|, i requires 0 <= i < |ws| => if ws[i].Name? then Word(Intern(table, ws[i].text)) else ws[i].token)
  }

  function Reinterned(table: map<string, SymbolKind>, s: Symbol): Symbol {
    Intern(table, NameOf(s))
  }

  /** The expression with every symbol looked up again under its name. */
  function Reread(table: map<string, SymbolKind>, e: Expr): Expr {
    match e
    case Sym(s) => Sym(Reinterned(table, s))
    case Not(x) => Not(Reread(table, x))
    case Equal(a, b) => Equal(Reinterned(table, a), Reinterned(table, b))
    case Unequal(a, b) => Unequal(Reinterned(table, a), Reinterned(table, b))
    case Bin(op, l, r) => Bin(op, Reread(table, l), Reread(table, r))
  }

  /** The symbols of e are those of the table: a symbol that is no constant is the one its name is
      looked up to. */
  ghost predicate Declared(table: map<string, SymbolKind>, e: Expr) {
    forall s <- SymbolsOf(e) :: s.Config? ==> Intern(table, s.name) == s
  }

  ghost predicate NoStringConstant(e: Expr) {
    forall s <- SymbolsOf(e) :: !s.Literal?
  }

  lemma {:induction false} ScanConcat(table: map<string, SymbolKind>, a: seq<Token>, b: seq<Token>)
    ensures Scan(table, Names(a + b)) == Scan(table, Names(a)) + Scan(table, Names(b))
  {
  }

  lemma {:induction false} ScanPrint(table: map<string, SymbolKind>, e: Expr, prev: Kind)
    ensures Scan(table, Names(Print(e, prev))) == Print(Reread(table, e), prev)
    decreases e, 1
  {
    ScanBody(table, e);
    assert KindOf(Reread(table, e)) == KindOf(e);
    hide KindOf, CompareType, Reread, Body, Scan, Names;
    if CompareType(prev, KindOf(e)) > 0 {
      ScanConcat(table, [Open], Body(e));
      ScanConcat(table, [Open] + Body(e), [Close]);
      ScanSign(table, Open);
      ScanSign(table, Close);
    }
  }

  lemma {:induction false} ScanSign(table: map<string, SymbolKind>, t: Token)
    requires !t.Word?
    ensures Scan(table, Names([t])) == [t]
  {
  }

  lemma {:induction false} ScanBody(table: map<string, SymbolKind>, e: Expr)
    ensures Scan(table, Names(Body(e))) == Body(Reread(table, e))
    decreases e, 0
  {
    if e.Not? {
      ScanPrint(table, e.arg, NotKind);
      ScanConcat(table, [TNot], Print(e.arg, NotKind));
    } else if e.Bin? {
      hide Print, Scan, Names;
      var kind, mark := KindOf(e), if e.op == And then TAnd else TOr;
      ScanPrint(table, e.left, kind);
      ScanPrint(table, e.right, kind);
      ScanConcat(table, Print(e.left, kind), [mark]);
      ScanConcat(table, Print(e.left, kind) + [mark], Print(e.right, kind));
      ScanSign(table, mark);
    }
  }

  lemma {:induction false} RereadSame(table: map<string, SymbolKind>, e: Expr)
    requires Declared(table, e) && NoStringConstant(e)
    ensures Reread(table, e) == e
  {
    match e
    case Not(x) => RereadSame(table, x);
    case Bin(_, l, r) =>
      RereadSame(table, l);
      RereadSame(table, r);
    case _ =>
  }

  lemma {:induction false} RereadNoConstant(table: map<string, SymbolKind>, e: Expr)
    ensures NoStringConstant(Reread(table, e))
  {
    match e
    case Not(x) => RereadNoConstant(table, x);
    case Bin(_, l, r) =>
      RereadNoConstant(table, l);
      RereadNoConstant(table, r);
    case _ =>
  }

  lemma {:induction false} LeftAssocSymbols(e: Expr)
    ensures SymbolsOf(LeftAssoc(e)) == SymbolsOf(e)
    decreases e, 1
  {
    match e
    case Not(x) => LeftAssocSymbols(x);
    case Bin(op, l, r) =>
      LeftAssocSymbols(l);
      AttachSymbols(op, LeftAssoc(l), r);
    case _ =>
  }

  lemma {:induction false} AttachSymbols(op: Op, acc: Expr, e: Expr)
    ensures SymbolsOf(Attach(op, acc, e)) == SymbolsOf(acc) + SymbolsOf(e)
    decreases e, 2
  {
    if IsOp(op, e) {
      AttachSymbols(op, acc, e.left);
      AttachSymbols(op, Attach(op, acc, e.left), e.right);
    } else {
      LeftAssocSymbols(e);
    }
  }

  /** expr_fprint, then the grammar. */
  function ReadBack(table: map<string, SymbolKind>, e: Expr): Parse {
    ParseOr(Scan(table, Names(Print(e, NoneKind))))
  }

  /** Reading back what expr_fprint writes gives the expression with its names looked up again and
      its chains associated to the left. So it gives back the expression itself, up to
      association, exactly if that has no string constant; association does not change a value. */
  lemma {:induction false} PrintParse(table: map<string, SymbolKind>, e: Expr)
    requires Declared(table, e)
    ensures ReadBack(table, e) == Parsed(LeftAssoc(Reread(table, e)), [])
    ensures ReadBack(table, e) == Parsed(LeftAssoc(e), []) <==> NoStringConstant(e)
    ensures forall env: Env :: Eval(env, LeftAssoc(e)) == Eval(env, e)
  {
    ScanPrint(table, e, NoneKind);
    SymbolsParse(Reread(table, e));
    if NoStringConstant(e) {
      RereadSame(table, e);
    } else {
      RereadNoConstant(table, e);
      LeftAssocSymbols(e);
      LeftAssocSymbols(Reread(table, e));
    }
    forall env: Env ensures Eval(env, LeftAssoc(e)) == Eval(env, e) {
      LeftAssocExact(env, e);
    }
  }

  /** A comparison with a string constant reads back as one with the symbol of that name; the
      values differ where the string holds the constant and the symbol something else. */
  lemma {:induction false} PrintLosesQuotes(table: map<string, SymbolKind>, env: Env, a: Symbol, text: string)
    requires a.Config? && Intern(table, a.name) == a
    requires text != "y" && text != "m" && text != "n"
    requires StrOf(env, a) == text && StrOf(env, Intern(table, text)) != text
    ensures ReadBack(table, Equal(a, Literal(text))) == Parsed(Equal(a, Intern(table, text)), [])
    ensures Eval(env, Equal(a, Literal(text))) == YES && Eval(env, Equal(a, Intern(table, text))) == NO
  {
    PrintParse(table, Equal(a, Literal(text)));
  }

  ghost function EachLeftAssoc(es: seq<Expr>): seq<Expr> {
    seq(|es|, i requires 0 <= i < |es| => LeftAssoc(es[i]))
  }

  /** Nothing but association is lost: every chain keeps its operands, in order. */
  lemma {:induction false} LeftAssocOperands(op: Op, e: Expr)
    ensures Operands(op, LeftAssoc(e)) == EachLeftAssoc(Operands(op, e))
    decreases e, 1
  {
    if IsOp(op, e) {
      LeftAssocOperands(op, e.left);
      AttachOperands(op, LeftAssoc(e.left), e.right);
    } else {
      LeftAssocKind(e);
    }
  }

  lemma {:induction false} AttachOperands(op: Op, acc: Expr, e: Expr)
    ensures Operands(op, Attach(op, acc, e)) == Operands(op, acc) + EachLeftAssoc(Operands(op, e))
    decreases e, 2
  {
    if IsOp(op, e) {
      AttachOperands(op, acc, e.left);
      AttachOperands(op, Attach(op, acc, e.left), e.right);
    } else {
      LeftAssocOperands(op, e);
    }
  }

  lemma {:induction false} LeftAssocKind(e: Expr)
    ensures KindOf(LeftAssoc(e)) == KindOf(e)
    decreases e, 1
  {
    if e.Bin? {
      AttachKind(e.op, LeftAssoc(e.left), e.right);
    }
  }

  lemma {:induction false} AttachKind(op: Op, acc: Expr, e: Expr)
    ensures IsOp(op, Attach(op, acc, e))
    decreases e, 2
  {
    if IsOp(op, e) {
      AttachKind(op, Attach(op, acc, e.left), e.right);
    }
  }
}
