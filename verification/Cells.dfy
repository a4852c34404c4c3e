/** Expressions as the linked cells that expr.c allocates and rewrites. */
module Cells {
  import opened Expr

  datatype Kind = IsSymbol | IsNot | IsEqual | IsUnequal | IsAnd | IsOr

  /** The union that holds an operand. */
  datatype Slot = Null | ToCell(cell: Cell) | ToSymbol(sym: Symbol)

  /** struct expr. */
  class Cell {
    var kind: Kind
    var left: Slot
    var right: Slot

    constructor (k: Kind, l: Slot, r: Slot)
      ensures kind == k && left == l && right == r
    {
      kind, left, right := k, l, r;
    }
  }

  function KindOf(op: Op): Kind {
    if op == And then IsAnd else IsOr
  }

  /** Which cells make up an expression. */
  datatype Shape =
    | Leaf(cell: Cell, leaf: Expr)
    | Unary(cell: Cell, arg: Shape)
    | Binary(cell: Cell, op: Op, l: Shape, r: Shape)

  ghost function Meaning(t: Shape): Expr {
    match t
    case Leaf(_, e) => e
    case Unary(_, x) => Not(Meaning(x))
    case Binary(_, op, l, r) => Bin(op, Meaning(l), Meaning(r))
  }

  ghost function Footprint(t: Shape): set<Cell> {
    match t
    case Leaf(c, _) => {c}
    case Unary(c, x) => {c} + Footprint(x)
    case Binary(c, _, l, r) => {c} + Footprint(l) + Footprint(r)
  }

  /** The fields of c say what the leaf e says. */
  ghost predicate Holds(c: Cell, e: Expr)
    reads c
  {
    match e
    case Sym(s) => c.kind == IsSymbol && c.left == ToSymbol(s)
    case Equal(a, b) => c.kind == IsEqual && c.left == ToSymbol(a) && c.right == ToSymbol(b)
    case Unequal(a, b) => c.kind == IsUnequal && c.left == ToSymbol(a) && c.right == ToSymbol(b)
    case _ => false
  }

  /** The cells are linked as the shape says, and no two of them are the same. */
  ghost predicate Laid(t: Shape)
    reads Footprint(t)
  {
    match t
    case Leaf(c, e) => Holds(c, e)
    case Unary(c, x) => c.kind == IsNot && c.left == ToCell(x.cell) && c !in Footprint(x) && Laid(x)
    case Binary(c, op, l, r) =>
      && c.kind == KindOf(op) && c.left == ToCell(l.cell) && c.right == ToCell(r.cell)
      && c !in Footprint(l) && c !in Footprint(r) && Footprint(l) !! Footprint(r)
      && Laid(l) && Laid(r)
  }

  /** The same expression with another top cell. */
  ghost function Moved(t: Shape, c: Cell): Shape {
    t.(cell := c)
  }

  lemma {:induction false} LaidLeaf(t: Shape)
    requires t.Leaf? && Holds(t.cell, t.leaf)
    ensures Laid(t)
  {
  }

  lemma {:induction false} LaidUnary(t: Shape)
    requires t.Unary? && Laid(t.arg)
    requires t.cell.kind == IsNot && t.cell.left == ToCell(t.arg.cell) && t.cell !in Footprint(t.arg)
    ensures Laid(t)
  {
  }

  lemma {:induction false} LaidBinary(t: Shape)
    requires t.Binary? && Laid(t.l) && Laid(t.r)
    requires t.cell.kind == KindOf(t.op) && t.cell.left == ToCell(t.l.cell) && t.cell.right == ToCell(t.r.cell)
    requires t.cell !in Footprint(t.l) && t.cell !in Footprint(t.r) && Footprint(t.l) !! Footprint(t.r)
    ensures Laid(t) && Footprint(t) == {t.cell} + Footprint(t.l) + Footprint(t.r)
  {
  }

  /** What is known of a cell from its kind. */
  lemma {:induction false} LaidParts(t: Shape)
    requires Laid(t)
    ensures t.Binary? <==> t.cell.kind == IsAnd || t.cell.kind == IsOr
    ensures t.Unary? <==> t.cell.kind == IsNot
    ensures t.Leaf? ==> Holds(t.cell, t.leaf)
    ensures t.Unary? ==> t.cell.left == ToCell(t.arg.cell) && Laid(t.arg) && t.cell !in Footprint(t.arg)
    ensures t.Binary? ==>
              && Footprint(t) == {t.cell} + Footprint(t.l) + Footprint(t.r)
              && t.cell.kind == KindOf(t.op) && t.cell.left == ToCell(t.l.cell) && t.cell.right == ToCell(t.r.cell)
              && Laid(t.l) && Laid(t.r)
              && t.cell !in Footprint(t.l) && t.cell !in Footprint(t.r) && Footprint(t.l) !! Footprint(t.r)
  {
  }
}
