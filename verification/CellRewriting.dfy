/** expr_eliminate_yn, expr_trans_bool and expr_transform on cells, in place: they leave the
    expressions that ConstantElimination, Queries and Transformation define. */
module CellRewriting {
  import opened Expr
  import opened Cells
  import opened ConstantElimination
  import opened Transformation
  import opened Queries

  predicate IsSymbolCell(c: Cell, s: Symbol)
    reads c
  {
    c.kind == IsSymbol && c.left == ToSymbol(s)
  }

  lemma {:induction false} SymbolCell(t: Shape, s: Symbol)
    requires Laid(t)
    ensures IsSymbolCell(t.cell, s) <==> Meaning(t) == Sym(s)
  {
  }

  /** The cell becomes the symbol. */
  method Become(c: Cell, s: Symbol)
    modifies c
    ensures Holds(c, Sym(s))
  {
    c.kind, c.left, c.right := IsSymbol, ToSymbol(s), Null;
  }

  /** The cell becomes a copy of another one, which is dropped. */
  method CopyOver(c: Cell, d: Cell, ghost t: Shape)
    requires t.cell == d && Laid(t) && c !in Footprint(t)
    modifies c
    ensures Laid(Moved(t, c)) && Meaning(Moved(t, c)) == Meaning(t)
    ensures Footprint(Moved(t, c)) <= Footprint(t) + {c}
  {
    assert allocated(Footprint(t));
    c.kind, c.left, c.right := d.kind, d.left, d.right;
    assert Laid(t);
  }

  /** The part of expr_eliminate_yn after the operands have been done. */
  method DropConstant(c: Cell, ghost t: Shape) returns (ghost t': Shape)
    requires t.cell == c && Laid(t) && t.Binary?
    modifies c
    ensures t'.cell == c && Laid(t') && Footprint(t') <= Footprint(t)
    ensures Meaning(t') == DropYn(t.op, Meaning(t.l), Meaning(t.r))
  {
    var op := if c.kind == IsAnd then And else Or;
    var l, r := c.left.cell, c.right.cell;
    t' := t;
    SymbolCell(t.l, Absorbing(op));
    SymbolCell(t.l, Identity(op));
    SymbolCell(t.r, Absorbing(op));
    SymbolCell(t.r, Identity(op));
    if IsSymbolCell(l, Absorbing(op)) {
      Become(c, Absorbing(op));
      t' := Leaf(c, Sym(Absorbing(op)));
    } else if IsSymbolCell(l, Identity(op)) {
      CopyOver(c, r, t.r);
      t' := Moved(t.r, c);
    } else if IsSymbolCell(r, Absorbing(op)) {
      Become(c, Absorbing(op));
      t' := Leaf(c, Sym(Absorbing(op)));
    } else if IsSymbolCell(r, Identity(op)) {
      CopyOver(c, l, t.l);
      t' := Moved(t.l, c);
    }
  }

  /** expr_eliminate_yn. */
  method EliminateCell(c: Cell, ghost t: Shape) returns (ghost t': Shape)
    requires t.cell == c && Laid(t)
    modifies Footprint(t)
    ensures t'.cell == c && Laid(t') && Footprint(t') <= Footprint(t)
    ensures Meaning(t') == EliminateYn(Meaning(t))
    decreases t
  {
    hide Laid, DropYn;
    LaidParts(t);
    if c.kind != IsAnd && c.kind != IsOr {
      return t;
    }
    assert allocated(Footprint(t.l)) && allocated(Footprint(t.r));
    ghost var tl := EliminateCell(c.left.cell, t.l);
    assert allocated(Footprint(tl));
    ghost var tr := EliminateCell(c.right.cell, t.r);
    t' := Binary(c, t.op, tl, tr);
    LaidBinary(t');
    t' := DropConstant(c, t');
  }

  /** expr_trans_bool. */
  method TransBoolCell(c: Cell, ghost t: Shape) returns (ghost t': Shape)
    requires t.cell == c && Laid(t)
    modifies Footprint(t)
    ensures t'.cell == c && Laid(t') && Footprint(t') == Footprint(t)
    ensures Meaning(t') == TransBool(Meaning(t))
    decreases t
  {
    hide Laid;
    LaidParts(t);
    t' := t;
    if c.kind == IsAnd || c.kind == IsOr {
      assert allocated(Footprint(t.l)) && allocated(Footprint(t.r));
      ghost var tl := TransBoolCell(c.left.cell, t.l);
      assert allocated(Footprint(tl));
      ghost var tr := TransBoolCell(c.right.cell, t.r);
      t' := Binary(c, t.op, tl, tr);
      LaidBinary(t');
    } else if c.kind == IsNot {
      assert allocated(Footprint(t.arg));
      ghost var x := TransBoolCell(c.left.cell, t.arg);
      t' := Unary(c, x);
      LaidUnary(t');
    } else if c.kind == IsUnequal && c.left.sym.Config? && c.left.sym.kind.Tristated? && c.right.sym == No {
      c.kind, c.right := IsSymbol, Null;
      t' := Leaf(c, Sym(c.left.sym));
      LaidLeaf(t');
    }
  }

  /** expr_transform of a comparison. */
  method TransformComparison(c: Cell, ghost t: Shape) returns (ghost t': Shape, ghost added: set<Cell>)
    requires t.cell == c && Laid(t) && t.Leaf?
    modifies c
    ensures t'.cell == c && Laid(t') && fresh(added) && Footprint(t') <= Footprint(t) + added
    ensures Meaning(t') == Transform(t.leaf)
  {
    t', added := t, {};
    if c.kind != IsSymbol && IsBool(c.left.sym) {
      var equal := c.kind == IsEqual;
      var s, constant := c.left.sym, c.right.sym;
      if constant == Mod {
        Become(c, if equal then No else Yes);
        t' := Leaf(c, Sym(if equal then No else Yes));
      } else if constant == (if equal then No else Yes) {
        var d := new Cell(IsSymbol, ToSymbol(s), Null);
        c.kind, c.left, c.right := IsNot, ToCell(d), Null;
        t', added := Unary(c, Leaf(d, Sym(s))), {d};
      } else if constant == (if equal then Yes else No) {
        c.kind, c.right := IsSymbol, Null;
        t' := Leaf(c, Sym(s));
      }
    }
  }

  /** The negation of an AND or OR, distributed: the inner cell becomes the first negation, and a
      new cell the second. */
  method Distribute(c: Cell, ghost t: Shape) returns (ghost t': Shape, ghost added: set<Cell>)
    requires t.cell == c && Laid(t) && t.Unary? && t.arg.Binary?
    modifies c, t.arg.cell
    ensures t'.cell == c && Laid(t') && fresh(added) && Footprint(t') <= Footprint(t) + added
    ensures Meaning(t') == Bin(Dual(t.arg.op), Not(Meaning(t.arg.l)), Not(Meaning(t.arg.r)))
  {
    hide Laid;
    LaidParts(t);
    LaidParts(t.arg);
    ghost var l, r := t.arg.l, t.arg.r;
    assert allocated(Footprint(l)) && allocated(Footprint(r));
    var inner := c.left.cell;
    c.kind := if inner.kind == IsOr then IsAnd else IsOr;
    var second := new Cell(IsNot, inner.right, Null);
    c.right := ToCell(second);
    inner.kind, inner.right := IsNot, Null;
    LaidUnary(Unary(inner, l));
    LaidUnary(Unary(second, r));
    t', added := Binary(c, Dual(t.arg.op), Unary(inner, l), Unary(second, r)), {second};
    LaidBinary(t');
  }

  /** A negated constant, or a negated comparison: the inner cell takes the negation over. */
  method NegateLeaf(c: Cell, ghost t: Shape) returns (r: Cell, ghost t': Shape)
    requires t.cell == c && Laid(t) && t.Unary? && t.arg.Leaf?
    modifies t.arg.cell
    ensures t'.cell == r && Laid(t') && Footprint(t') <= Footprint(t)
    ensures Meaning(t') == Negated(t.arg.leaf)
  {
    r, t' := c, t;
    var inner := c.left.cell;
    if inner.kind == IsEqual {
      r, inner.kind := inner, IsUnequal;
      t' := Leaf(inner, Unequal(t.arg.leaf.lhs, t.arg.leaf.rhs));
    } else if inner.kind == IsUnequal {
      r, inner.kind := inner, IsEqual;
      t' := Leaf(inner, Equal(t.arg.leaf.lhs, t.arg.leaf.rhs));
    } else if inner.left.sym == Yes {
      r, inner.left := inner, ToSymbol(No);
      t' := Leaf(inner, Sym(No));
    } else if inner.left.sym == Mod {
      r, inner.left := inner, ToSymbol(Mod);
      t' := Leaf(inner, Sym(Mod));
    } else if inner.left.sym == No {
      r, inner.left := inner, ToSymbol(Yes);
      t' := Leaf(inner, Sym(Yes));
    }
  }

  /** expr_transform: the result may be another cell than the one given. */
  method TransformCell(c: Cell, ghost t: Shape) returns (r: Cell, ghost t': Shape, ghost added: set<Cell>)
    requires t.cell == c && Laid(t)
    modifies Footprint(t)
    ensures t'.cell == r && Laid(t') && fresh(added) && Footprint(t') <= Footprint(t) + added
    ensures Meaning(t') == Transform(Meaning(t))
    decreases Weight(Meaning(t)), Size(Meaning(t))
  {
    hide Laid;
    LaidParts(t);
    if c.kind == IsAnd || c.kind == IsOr {
      r := c;
      t', added := TransformOperands(c, t);
    } else if c.kind == IsNot {
      assert allocated(Footprint(t.arg));
      var x, tx, more := TransformCell(c.left.cell, t.arg);
      assert allocated(Footprint(tx));
      r, t', added := TransformNegation(c, x, tx);
      added := added + more;
    } else {
      r := c;
      t', added := TransformComparison(c, t);
    }
  }

  /** expr_transform of the operands of AND and OR. */
  method TransformOperands(c: Cell, ghost t: Shape) returns (ghost t': Shape, ghost added: set<Cell>)
    requires t.cell == c && Laid(t) && t.Binary?
    modifies Footprint(t)
    ensures t'.cell == c && Laid(t') && fresh(added) && Footprint(t') <= Footprint(t) + added
    ensures Meaning(t') == Transform(Meaning(t))
    decreases Weight(Meaning(t)), 0
  {
    hide Laid, Negated, Holds, Footprint;
    LaidParts(t);
    assert allocated(Footprint(t.l)) && allocated(Footprint(t.r));
    var l, tl, fl := TransformCell(c.left.cell, t.l);
    assert allocated(Footprint(tl)) && Footprint(tl) !! Footprint(t.r) && c !in Footprint(tl);
    c.left := ToCell(l);
    var r, tr, fr := TransformCell(c.right.cell, t.r);
    assert allocated(Footprint(tr)) && Footprint(tl) !! Footprint(tr) && c !in Footprint(tr);
    c.right := ToCell(r);
    t', added := Binary(c, t.op, tl, tr), fl + fr;
    LaidBinary(t');
  }

  /** expr_transform of a negation whose operand has been done. */
  method TransformNegation(c: Cell, inner: Cell, ghost t: Shape)
    returns (r: Cell, ghost t': Shape, ghost added: set<Cell>)
    requires c.kind == IsNot && t.cell == inner && Laid(t) && c !in Footprint(t)
    modifies c, Footprint(t)
    ensures t'.cell == r && Laid(t') && fresh(added) && Footprint(t') <= {c} + Footprint(t) + added
    ensures Meaning(t') == Negated(Meaning(t))
    decreases 2 * Weight(Meaning(t)), 0
  {
    hide Laid;
    added := {};
    assert allocated(Footprint(t));
    c.left := ToCell(inner);
    LaidUnary(Unary(c, t));
    LaidParts(t);
    WeightPositive(Meaning(t));
    if inner.kind == IsNot {
      WeightPositive(Meaning(t.arg));
      r, t', added := TransformCell(inner.left.cell, t.arg);
    } else if inner.kind == IsAnd || inner.kind == IsOr {
      NotDistributes(t.op, Meaning(t.l), Meaning(t.r));
      var u, more := Distribute(c, Unary(c, t));
      r, t', added := TransformCell(c, u);
      added := added + more;
    } else {
      r, t' := NegateLeaf(c, Unary(c, t));
    }
  }
}
