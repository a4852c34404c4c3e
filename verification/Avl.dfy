/** AVL trees built by insertion: nodes linked by left and right pointers, each with a skew code. */
module Avl {

  datatype Skew = NoSkew | LeftSkew | RightSkew

  datatype Res = Ok | Balance

  class AvlNode {
    const key: int
    var left: AvlNode?
    var right: AvlNode?
    var skew: Skew

    constructor (key: int)
      ensures this.key == key && left == null && right == null && skew == NoSkew
    {
      this.key := key;
      left, right, skew := null, null, NoSkew;
    }
  }

  /** The shape that a root pointer stands for. */
  datatype Tree = Empty | Node(left: Tree, node: AvlNode, skew: Skew, right: Tree)

  /** The nodes from left to right. */
  ghost function InOrder(t: Tree): seq<AvlNode> {
    match t
    case Empty => []
    case Node(l, n, _, r) => InOrder(l) + [n] + InOrder(r)
  }

  ghost function Nodes(t: Tree): set<AvlNode> {
    match t
    case Empty => {}
    case Node(l, n, _, r) => Nodes(l) + {n} + Nodes(r)
  }

  lemma {:induction false} NodeInOrder(t: Tree, n: AvlNode)
    requires n in Nodes(t)
    ensures n in InOrder(t)
  {
    if n in Nodes(t.left) {
      NodeInOrder(t.left, n);
    } else if n in Nodes(t.right) {
      NodeInOrder(t.right, n);
    }
  }

  lemma {:induction false} InOrderNode(t: Tree, n: AvlNode)
    requires n in InOrder(t)
    ensures n in Nodes(t)
  {
    if n in InOrder(t.left) {
      InOrderNode(t.left, n);
    } else if n in InOrder(t.right) {
      InOrderNode(t.right, n);
    }
  }

  ghost function KeysOf(s: seq<AvlNode>): set<int> {
    set n <- s :: n.key
  }

  ghost function Keys(t: Tree): set<int> {
    KeysOf(InOrder(t))
  }

  /** Search trees: keys increase from left to right, so no key and no node occurs twice. */
  ghost predicate Sorted(s: seq<AvlNode>) {
    forall i, j :: 0 <= i < j < |s| ==> s[i].key < s[j].key
  }

  ghost function Height(t: Tree): nat {
    match t
    case Empty => 0
    case Node(l, _, _, r) => 1 + Max(Height(l), Height(r))
  }

  function Max(a: int, b: int): int {
    if a > b then a else b
  }

  /** The skew says how the heights of the two sides differ. */
  predicate Leans(skew: Skew, left: int, right: int) {
    match skew
    case NoSkew => left == right
    case LeftSkew => left == right + 1
    case RightSkew => right == left + 1
  }

  ghost predicate Balanced(t: Tree) {
    t.Node? ==>
      Leans(t.skew, Height(t.left), Height(t.right)) && Balanced(t.left) && Balanced(t.right)
  }

  /** The double rotation: m comes up between a and b, which hang on x and y. */
  ghost function Doubled(a: Tree, x: AvlNode, m: Tree, y: AvlNode, b: Tree): (t: Tree)
    requires Balanced(a) && Balanced(m) && Balanced(b)
    requires m.Node? && Height(a) == Height(b) == Height(m) - 1
    ensures Balanced(t) && Height(t) == Height(m) + 1
  {
    var left := Node(a, x, if m.skew == RightSkew then LeftSkew else NoSkew, m.left);
    var right := Node(m.right, y, if m.skew == LeftSkew then RightSkew else NoSkew, b);
    assert Balanced(left) && Balanced(right);
    Node(left, m.node, NoSkew, right)
  }

  /** avl_grownLeft: the left side of a balanced node with skew s has grown by one. */
  ghost function GrownLeft(l: Tree, n: AvlNode, s: Skew, r: Tree): (t: (Tree, Res))
    requires Balanced(l) && Balanced(r) && l.Node?
    requires Leans(s, Height(l) - 1, Height(r))
    requires s == LeftSkew ==> l.skew != NoSkew
    ensures Balanced(t.0)
    ensures Height(t.0) == Max(Height(l) - 1, Height(r)) + (if t.1 == Balance then 2 else 1)
    ensures t.1 == Balance ==> t.0.Node? && t.0.skew != NoSkew
  {
    match s
    case RightSkew => (Node(l, n, NoSkew, r), Ok)
    case NoSkew => (Node(l, n, LeftSkew, r), Balance)
    case LeftSkew =>
      if l.skew == LeftSkew then
        (Node(l.left, l.node, NoSkew, Node(l.right, n, NoSkew, r)), Ok)
      else
        (Doubled(l.left, l.node, l.right, n, r), Ok)
  }

  /** avl_grownRight, its mirror image. */
  ghost function GrownRight(l: Tree, n: AvlNode, s: Skew, r: Tree): (t: (Tree, Res))
    requires Balanced(l) && Balanced(r) && r.Node?
    requires Leans(s, Height(l), Height(r) - 1)
    requires s == RightSkew ==> r.skew != NoSkew
    ensures Balanced(t.0)
    ensures Height(t.0) == Max(Height(l), Height(r) - 1) + (if t.1 == Balance then 2 else 1)
    ensures t.1 == Balance ==> t.0.Node? && t.0.skew != NoSkew
  {
    match s
    case LeftSkew => (Node(l, n, NoSkew, r), Ok)
    case NoSkew => (Node(l, n, RightSkew, r), Balance)
    case RightSkew =>
      if r.skew == RightSkew then
        (Node(Node(l, n, NoSkew, r.left), r.node, NoSkew, r.right), Ok)
      else
        (Doubled(l, n, r.left, r.node, r.right), Ok)
  }

  /** Rotations keep the nodes in order. */
  lemma {:induction false} GrownLeftInOrder(l: Tree, n: AvlNode, s: Skew, r: Tree)
    requires Balanced(l) && Balanced(r) && l.Node?
    requires Leans(s, Height(l) - 1, Height(r))
    requires s == LeftSkew ==> l.skew != NoSkew
    ensures InOrder(GrownLeft(l, n, s, r).0) == InOrder(l) + [n] + InOrder(r)
  {
    var t := GrownLeft(l, n, s, r).0;
    if s == LeftSkew {
      var ll, lr, rr := InOrder(l.left), InOrder(l.right), InOrder(r);
      if l.skew == LeftSkew {
        assert InOrder(t.right) == lr + [n] + rr;
        Reassociate(ll, l.node, lr, n, rr);
      } else {
        var m := l.right;
        assert InOrder(t.left) == ll + [l.node] + InOrder(m.left);
        assert InOrder(t.right) == InOrder(m.right) + [n] + rr;
        Reassociate3(ll, l.node, InOrder(m.left), m.node, InOrder(m.right), n, rr);
      }
    }
  }

  lemma {:induction false} GrownRightInOrder(l: Tree, n: AvlNode, s: Skew, r: Tree)
    requires Balanced(l) && Balanced(r) && r.Node?
    requires Leans(s, Height(l), Height(r) - 1)
    requires s == RightSkew ==> r.skew != NoSkew
    ensures InOrder(GrownRight(l, n, s, r).0) == InOrder(l) + [n] + InOrder(r)
  {
    var t := GrownRight(l, n, s, r).0;
    if s == RightSkew {
      var ll, rl, rr := InOrder(l), InOrder(r.left), InOrder(r.right);
      if r.skew == RightSkew {
        assert InOrder(t.left) == ll + [n] + rl;
        Reassociate(ll, n, rl, r.node, rr);
      } else {
        var m := r.left;
        assert InOrder(t.left) == ll + [n] + InOrder(m.left);
        assert InOrder(t.right) == InOrder(m.right) + [r.node] + rr;
        Reassociate3(ll, n, InOrder(m.left), m.node, InOrder(m.right), r.node, rr);
      }
    }
  }

  lemma Reassociate<T>(a: seq<T>, x: T, b: seq<T>, y: T, c: seq<T>)
    ensures a + [x] + (b + [y] + c) == (a + [x] + b) + [y] + c
  {
  }

  lemma Reassociate3<T>(a: seq<T>, x: T, b: seq<T>, y: T, c: seq<T>, z: T, d: seq<T>)
    ensures (a + [x] + b) + [y] + (c + [z] + d) == (a + [x] + (b + [y] + c)) + [z] + d
    ensures (a + [x] + b) + [y] + (c + [z] + d) == a + [x] + ((b + [y] + c) + [z] + d)
  {
  }

  /** The tree after _avl_add, and whether it has grown. */
  ghost function Insert(t: Tree, n: AvlNode): (r: (Tree, Res))
    requires Balanced(t)
    ensures Balanced(r.0)
    ensures Height(r.0) == Height(t) + (if r.1 == Balance then 1 else 0)
    ensures r.1 == Balance ==> r.0.Node? && (t.Node? ==> r.0.skew != NoSkew)
  {
    match t
    case Empty => (Node(Empty, n, NoSkew, Empty), Balance)
    case Node(l, m, s, r) =>
      if n.key < m.key then
        var (l', res) := Insert(l, n);
        if res == Balance then GrownLeft(l', m, s, r) else (Node(l', m, s, r), Ok)
      else if n.key > m.key then
        var (r', res) := Insert(r, n);
        if res == Balance then GrownRight(l, m, s, r') else (Node(l, m, s, r'), Ok)
      else (t, Ok)
  }

  /** The sorted sequence s with n in its place; unchanged if the key of n is there already. */
  ghost function Placed(s: seq<AvlNode>, n: AvlNode): seq<AvlNode> {
    if s == [] || n.key < s[0].key then [n] + s
    else if n.key == s[0].key then s
    else [s[0]] + Placed(s[1..], n)
  }

  /** Where n goes. */
  lemma {:induction false} PlacedAt(s: seq<AvlNode>, n: AvlNode) returns (k: nat)
    requires Sorted(s)
    ensures k <= |s| && (forall i :: 0 <= i < k ==> s[i].key < n.key)
    ensures forall i :: k < i < |s| ==> n.key < s[i].key
    ensures if k < |s| && s[k].key == n.key then Placed(s, n) == s
            else (k < |s| ==> n.key < s[k].key) && Placed(s, n) == s[..k] + [n] + s[k..]
  {
    if s == [] || n.key <= s[0].key {
      k := 0;
    } else {
      assert Sorted(s[1..]);
      var k' := PlacedAt(s[1..], n);
      k := k' + 1;
      PlacedOneFurther(s, n, k');
    }
  }

  lemma {:induction false} PlacedOneFurther(s: seq<AvlNode>, n: AvlNode, k: nat)
    requires k < |s| && n.key > s[0].key
    ensures Placed(s[1..], n) == s[1..] ==> Placed(s, n) == s
    ensures Placed(s[1..], n) == s[1..][..k] + [n] + s[1..][k..] ==>
              Placed(s, n) == s[..k + 1] + [n] + s[k + 1..]
  {
    assert s[..k + 1] == [s[0]] + s[1..][..k] && s[k + 1..] == s[1..][k..];
  }

  lemma {:induction false} PlacedContents(s: seq<AvlNode>, n: AvlNode)
    requires Sorted(s)
    ensures Sorted(Placed(s, n))
    ensures n.key in KeysOf(s) ==> Placed(s, n) == s
    ensures KeysOf(Placed(s, n)) == KeysOf(s) + {n.key}
  {
    var k := PlacedAt(s, n);
    if k < |s| && s[k].key == n.key {
      assert n.key in KeysOf(s);
    } else {
      SplicedSorted(s, k, n);
      SplicedKeys(s, k, n);
    }
  }

  lemma SplicedSorted(s: seq<AvlNode>, k: nat, n: AvlNode)
    requires Sorted(s) && k <= |s|
    requires forall i :: 0 <= i < k ==> s[i].key < n.key
    requires forall i :: k <= i < |s| ==> n.key < s[i].key
    ensures Sorted(s[..k] + [n] + s[k..])
    ensures n.key !in KeysOf(s)
  {
  }

  lemma SplicedKeys(s: seq<AvlNode>, k: nat, n: AvlNode)
    requires k <= |s|
    ensures KeysOf(s[..k] + [n] + s[k..]) == KeysOf(s) + {n.key}
  {
    KeysOfConcat(s[..k] + [n], s[k..]);
    KeysOfConcat(s[..k], [n]);
    KeysOfConcat(s[..k], s[k..]);
    KeysOfOne(n);
    assert s[..k] + s[k..] == s;
  }

  /** The elements afterwards, one at a time. */
  lemma {:induction false} PlacedMember(s: seq<AvlNode>, n: AvlNode, m: AvlNode)
    ensures m in Placed(s, n) ==> m in s || m == n
    ensures m in s ==> m in Placed(s, n)
    ensures n.key !in KeysOf(s) ==> n in Placed(s, n)
  {
    if s == [] || n.key < s[0].key {
    } else if n.key == s[0].key {
      assert s[0] in s;
    } else {
      PlacedMember(s[1..], n, m);
      assert s == [s[0]] + s[1..];
    }
  }

  lemma {:induction false} PlacedLeft(a: seq<AvlNode>, m: AvlNode, b: seq<AvlNode>, n: AvlNode)
    requires n.key < m.key
    ensures Placed(a + [m] + b, n) == Placed(a, n) + [m] + b
  {
    var s := a + [m] + b;
    if a != [] {
      assert s[1..] == a[1..] + [m] + b;
      PlacedLeft(a[1..], m, b, n);
    }
  }

  lemma {:induction false} PlacedRight(a: seq<AvlNode>, b: seq<AvlNode>, n: AvlNode)
    requires forall m <- a :: m.key < n.key
    ensures Placed(a + b, n) == a + Placed(b, n)
  {
    if a == [] {
      assert a + b == b;
    } else {
      assert (a + b)[1..] == a[1..] + b;
      PlacedRight(a[1..], b, n);
    }
  }

  lemma SortedParts(t: Tree)
    requires t.Node? && Sorted(InOrder(t))
    ensures Sorted(InOrder(t.left)) && Sorted(InOrder(t.right))
    ensures forall m <- InOrder(t.left) :: m.key < t.node.key
    ensures forall m <- InOrder(t.right) :: t.node.key < m.key
  {
    var l, s := InOrder(t.left), InOrder(t);
    assert l == s[..|l|] && InOrder(t.right) == s[|l| + 1..] && s[|l|] == t.node;
  }

  /** Insertion puts the node in its place among the others, unless its key is there already. */
  lemma {:induction false} InsertInOrder(t: Tree, n: AvlNode)
    requires Balanced(t) && Sorted(InOrder(t))
    ensures InOrder(Insert(t, n).0) == Placed(InOrder(t), n)
  {
    if t.Node? {
      var l, m, r := t.left, t.node, t.right;
      SortedParts(t);
      if n.key < m.key {
        InsertInOrder(l, n);
        PlacedLeft(InOrder(l), m, InOrder(r), n);
        var (l', res) := Insert(l, n);
        if res == Balance {
          GrownLeftInOrder(l', m, t.skew, r);
        }
      } else if n.key > m.key {
        InsertInOrder(r, n);
        PlacedMiddle(InOrder(l), m, InOrder(r), n);
        var (r', res) := Insert(r, n);
        if res == Balance {
          GrownRightInOrder(l, m, t.skew, r');
        }
      } else {
        PlacedMiddle(InOrder(l), m, InOrder(r), n);
      }
    }
  }

  lemma {:induction false} PlacedMiddle(a: seq<AvlNode>, m: AvlNode, b: seq<AvlNode>, n: AvlNode)
    requires forall x <- a :: x.key < m.key
    requires m.key <= n.key
    ensures Placed(a + [m] + b, n) == if m.key < n.key then a + [m] + Placed(b, n) else a + [m] + b
  {
    var s := [m] + b;
    assert a + [m] + b == a + s;
    assert s[1..] == b;
    PlacedRight(a, s, n);
    assert a + ([m] + Placed(b, n)) == a + [m] + Placed(b, n);
  }

  /** The contract of _avl_add on trees: search order and balance are kept, the node is added
      unless its key is present, and then the tree does not change at all. */
  lemma {:induction false} InsertContents(t: Tree, n: AvlNode)
    requires Balanced(t) && Sorted(InOrder(t))
    ensures Balanced(Insert(t, n).0) && Sorted(InOrder(Insert(t, n).0))
    ensures Keys(Insert(t, n).0) == Keys(t) + {n.key}
    ensures Nodes(Insert(t, n).0) == if n.key in Keys(t) then Nodes(t) else Nodes(t) + {n}
    ensures Insert(t, n).1 == Balance <==> Height(Insert(t, n).0) == Height(t) + 1
    ensures Insert(t, n).1 == Ok <==> Height(Insert(t, n).0) == Height(t)
  {
    InsertInOrder(t, n);
    PlacedContents(InOrder(t), n);
    if n.key in Keys(t) {
      InsertPresent(t, n);
    } else {
      NodesPlusOne(t, Insert(t, n).0, n);
    }
  }

  lemma {:induction false} NodesPlusOne(t: Tree, t': Tree, n: AvlNode)
    requires InOrder(t') == Placed(InOrder(t), n) && n.key !in Keys(t)
    ensures Nodes(t') == Nodes(t) + {n}
  {
    forall m | m in Nodes(t') ensures m in Nodes(t) + {n} {
      NodeInOrder(t', m);
      PlacedMember(InOrder(t), n, m);
      if m != n {
        InOrderNode(t, m);
      }
    }
    forall m | m in Nodes(t) + {n} ensures m in Nodes(t') {
      PlacedMember(InOrder(t), n, m);
      if m != n {
        NodeInOrder(t, m);
      }
      InOrderNode(t', m);
    }
  }

  lemma {:induction false} InsertPresent(t: Tree, n: AvlNode)
    requires Balanced(t) && Sorted(InOrder(t)) && n.key in Keys(t)
    ensures Insert(t, n) == (t, Ok)
  {
    SortedParts(t);
    assert forall m <- InOrder(t) :: m in InOrder(t.left) || m == t.node || m in InOrder(t.right);
    if n.key < t.node.key {
      InsertPresent(t.left, n);
    } else if n.key > t.node.key {
      InsertPresent(t.right, n);
    }
  }

  // ---- Height ----

  /** The fewest nodes a balanced tree of height h can have. */
  ghost function FewestNodes(h: nat): nat {
    if h == 0 then 0 else if h == 1 then 1 else 1 + FewestNodes(h - 1) + FewestNodes(h - 2)
  }

  ghost function Pow2(n: nat): nat {
    if n == 0 then 1 else 2 * Pow2(n - 1)
  }

  lemma {:induction false} FewestNodesGrows(h: nat)
    ensures FewestNodes(h) <= FewestNodes(h + 1)
    ensures Pow2(h / 2) <= FewestNodes(h) + 1
  {
    if h >= 2 {
      FewestNodesGrows(h - 1);
      FewestNodesGrows(h - 2);
      assert h / 2 == (h - 2) / 2 + 1;
    }
  }

  /** The height is logarithmic: 2^(height/2) is at most the number of nodes plus one. */
  lemma {:induction false} HeightLogarithmic(t: Tree)
    requires Balanced(t)
    ensures FewestNodes(Height(t)) <= |InOrder(t)|
    ensures Pow2(Height(t) / 2) <= |InOrder(t)| + 1
  {
    EnoughNodes(t);
    FewestNodesGrows(Height(t));
  }

  lemma {:induction false} NodeCount(t: Tree)
    ensures |InOrder(t)| == if t.Node? then |InOrder(t.left)| + 1 + |InOrder(t.right)| else 0
  {
  }

  lemma {:induction false} FewestNodesStep(h: nat)
    ensures FewestNodes(h) == if h < 2 then h else 1 + FewestNodes(h - 1) + FewestNodes(h - 2)
  {
  }

  lemma {:induction false} EnoughNodes(t: Tree)
    requires Balanced(t)
    ensures FewestNodes(Height(t)) <= |InOrder(t)|
  {
    hide InOrder, FewestNodes;
    NodeCount(t);
    FewestNodesStep(Height(t));
    if t.Node? {
      EnoughNodes(t.left);
      EnoughNodes(t.right);
      if Height(t) >= 2 {
        FewestNodesGrows(Height(t) - 2);
      }
    }
  }

  // ---- The linked representation ----

  /** p points to a tree of nodes shaped like t. */
  ghost predicate Linked(p: AvlNode?, t: Tree)
    reads Nodes(t)
    decreases t
  {
    match t
    case Empty => p == null
    case Node(l, n, s, r) =>
      p == n && n.skew == s && Linked(n.left, l) && Linked(n.right, r)
  }

  /** The nodes of the two sides and the root are different objects. */
  lemma {:induction false} SortedDisjoint(t: Tree)
    requires t.Node? && Sorted(InOrder(t))
    ensures t.node !in Nodes(t.left) && t.node !in Nodes(t.right) && Nodes(t.left) !! Nodes(t.right)
    ensures Sorted(InOrder(t.left)) && Sorted(InOrder(t.right))
  {
    SortedParts(t);
    forall m | m in Nodes(t.left) ensures m !in Nodes(t.right) && m != t.node {
      NodeInOrder(t.left, m);
      if m in Nodes(t.right) {
        NodeInOrder(t.right, m);
      }
    }
    if t.node in Nodes(t.right) {
      NodeInOrder(t.right, t.node);
    }
  }

  method RotateRight(root: AvlNode) returns (top: AvlNode)
    requires root.left != null && root.left != root
    modifies root`left, root.left`right
    ensures top == old(root.left)
    ensures root.left == old(root.left.right) && top.right == root
  {
    var tmp := root;
    top := root.left;
    tmp.left := top.right;
    top.right := tmp;
  }

  method RotateLeft(root: AvlNode) returns (top: AvlNode)
    requires root.right != null && root.right != root
    modifies root`right, root.right`left
    ensures top == old(root.right)
    ensures root.right == old(root.right.left) && top.left == root
  {
    var tmp := root;
    top := root.right;
    tmp.right := top.left;
    top.left := tmp;
  }

  /** A node over two linked subtrees. */
  lemma Link(n: AvlNode, l: Tree, s: Skew, r: Tree)
    requires n.skew == s && Linked(n.left, l) && Linked(n.right, r)
    ensures Linked(n, Node(l, n, s, r))
  {
  }

  /** Neither n nor x is a node of t. */
  ghost predicate Outside(n: AvlNode, x: AvlNode, t: Tree) {
    n !in Nodes(t) && x !in Nodes(t)
  }

  /** n over its left child x, with x leaning to the left: one rotation. */
  method SingleRight(n: AvlNode, x: AvlNode, ghost a: Tree, ghost b: Tree, ghost c: Tree) returns (top: AvlNode)
    requires n != x && Outside(n, x, a) && Outside(n, x, b) && Outside(n, x, c)
    requires n.left == x && Linked(x.left, a) && Linked(x.right, b) && Linked(n.right, c)
    modifies n, x
    ensures Linked(top, Node(a, x, NoSkew, Node(b, n, NoSkew, c)))
  {
    n.skew, x.skew := NoSkew, NoSkew;
    assert allocated(Nodes(a)) && allocated(Nodes(b)) && allocated(Nodes(c));
    top := RotateRight(n);
    assert Linked(x.left, a) && Linked(n.left, b) && Linked(n.right, c);
    Link(n, b, NoSkew, c);
    Link(x, a, NoSkew, Node(b, n, NoSkew, c));
  }

  method SingleLeft(n: AvlNode, x: AvlNode, ghost a: Tree, ghost b: Tree, ghost c: Tree) returns (top: AvlNode)
    requires n != x && Outside(n, x, a) && Outside(n, x, b) && Outside(n, x, c)
    requires n.right == x && Linked(n.left, a) && Linked(x.left, b) && Linked(x.right, c)
    modifies n, x
    ensures Linked(top, Node(Node(a, n, NoSkew, b), x, NoSkew, c))
  {
    n.skew, x.skew := NoSkew, NoSkew;
    assert allocated(Nodes(a)) && allocated(Nodes(b)) && allocated(Nodes(c));
    top := RotateLeft(n);
    assert Linked(n.left, a) && Linked(n.right, b) && Linked(x.right, c);
    Link(n, a, NoSkew, b);
    Link(x, Node(a, n, NoSkew, b), NoSkew, c);
  }

  /** The skew that a node gets, depending on which side of the inner node is higher. */
  function SkewIf(m: Skew, high: Skew, lean: Skew): Skew {
    if m == high then lean else NoSkew
  }

  /** The two rotations of n over its left child x over the inner node z. */
  method RotateLeftRight(n: AvlNode, x: AvlNode, z: AvlNode, ghost a: Tree, ghost b: Tree, ghost c: Tree, ghost d: Tree)
    requires n != x && n != z && x != z
    requires Outside(n, x, a) && Outside(n, x, b) && Outside(n, x, c) && Outside(n, x, d)
    requires z !in Nodes(a) && z !in Nodes(b) && z !in Nodes(c) && z !in Nodes(d)
    requires n.left == x && x.right == z
    requires Linked(x.left, a) && Linked(z.left, b) && Linked(z.right, c) && Linked(n.right, d)
    modifies n`left, x`right, z`left, z`right
    ensures z.left == x && z.right == n
    ensures Linked(x.left, a) && Linked(x.right, b) && Linked(n.left, c) && Linked(n.right, d)
  {
    hide Linked;
    assert allocated(Nodes(a)) && allocated(Nodes(b)) && allocated(Nodes(c)) && allocated(Nodes(d));
    n.left := RotateLeft(x);
    assert Linked(x.left, a) && Linked(x.right, b) && Linked(z.right, c) && Linked(n.right, d);
    var top := RotateRight(n);
  }

  method RotateRightLeft(n: AvlNode, x: AvlNode, z: AvlNode, ghost a: Tree, ghost b: Tree, ghost c: Tree, ghost d: Tree)
    requires n != x && n != z && x != z
    requires Outside(n, x, a) && Outside(n, x, b) && Outside(n, x, c) && Outside(n, x, d)
    requires z !in Nodes(a) && z !in Nodes(b) && z !in Nodes(c) && z !in Nodes(d)
    requires n.right == x && x.left == z
    requires Linked(n.left, a) && Linked(z.left, b) && Linked(z.right, c) && Linked(x.right, d)
    modifies n`right, x`left, z`left, z`right
    ensures z.right == x && z.left == n
    ensures Linked(n.left, a) && Linked(n.right, b) && Linked(x.left, c) && Linked(x.right, d)
  {
    hide Linked;
    assert allocated(Nodes(a)) && allocated(Nodes(b)) && allocated(Nodes(c)) && allocated(Nodes(d));
    n.right := RotateRight(x);
    assert Linked(n.left, a) && Linked(z.left, b) && Linked(x.left, c) && Linked(x.right, d);
    var top := RotateLeft(n);
  }

  /** The skews for a double rotation, where n ends up to the right of x. */
  method Reskew(n: AvlNode, x: AvlNode, z: AvlNode)
    requires n != x && n != z && x != z
    modifies n`skew, x`skew, z`skew
    ensures n.skew == SkewIf(old(z.skew), LeftSkew, RightSkew) && x.skew == SkewIf(old(z.skew), RightSkew, LeftSkew)
    ensures z.skew == NoSkew
  {
    match z.skew {
      case LeftSkew => n.skew, x.skew := RightSkew, NoSkew;
      case RightSkew => n.skew, x.skew := NoSkew, LeftSkew;
      case NoSkew => n.skew, x.skew := NoSkew, NoSkew;
    }
    z.skew := NoSkew;
  }

  /** n over its left child x over the inner node z: the double rotation with its skews. */
  method DoubleRight(n: AvlNode, x: AvlNode, z: AvlNode, ghost a: Tree, ghost b: Tree, ghost c: Tree, ghost d: Tree)
    returns (top: AvlNode)
    requires n != x && n != z && x != z
    requires Outside(n, x, a) && Outside(n, x, b) && Outside(n, x, c) && Outside(n, x, d)
    requires z !in Nodes(a) && z !in Nodes(b) && z !in Nodes(c) && z !in Nodes(d)
    requires n.left == x && x.right == z
    requires Linked(x.left, a) && Linked(z.left, b) && Linked(z.right, c) && Linked(n.right, d)
    modifies n, x, z
    ensures Linked(top, Node(Node(a, x, SkewIf(old(z.skew), RightSkew, LeftSkew), b), z, NoSkew,
                             Node(c, n, SkewIf(old(z.skew), LeftSkew, RightSkew), d)))
  {
    hide Linked;
    assert allocated(Nodes(a)) && allocated(Nodes(b)) && allocated(Nodes(c)) && allocated(Nodes(d));
    Reskew(n, x, z);
    assert Linked(x.left, a) && Linked(z.left, b) && Linked(z.right, c) && Linked(n.right, d);
    RotateLeftRight(n, x, z, a, b, c, d);
    top := z;
    Link(x, a, x.skew, b);
    Link(n, c, n.skew, d);
    Link(z, Node(a, x, x.skew, b), NoSkew, Node(c, n, n.skew, d));
  }

  method DoubleLeft(n: AvlNode, x: AvlNode, z: AvlNode, ghost a: Tree, ghost b: Tree, ghost c: Tree, ghost d: Tree)
    returns (top: AvlNode)
    requires n != x && n != z && x != z
    requires Outside(n, x, a) && Outside(n, x, b) && Outside(n, x, c) && Outside(n, x, d)
    requires z !in Nodes(a) && z !in Nodes(b) && z !in Nodes(c) && z !in Nodes(d)
    requires n.right == x && x.left == z
    requires Linked(n.left, a) && Linked(z.left, b) && Linked(z.right, c) && Linked(x.right, d)
    modifies n, x, z
    ensures Linked(top, Node(Node(a, n, SkewIf(old(z.skew), RightSkew, LeftSkew), b), z, NoSkew,
                             Node(c, x, SkewIf(old(z.skew), LeftSkew, RightSkew), d)))
  {
    hide Linked;
    assert allocated(Nodes(a)) && allocated(Nodes(b)) && allocated(Nodes(c)) && allocated(Nodes(d));
    Reskew(x, n, z);
    assert Linked(n.left, a) && Linked(z.left, b) && Linked(z.right, c) && Linked(x.right, d);
    RotateRightLeft(n, x, z, a, b, c, d);
    top := z;
    Link(n, a, n.skew, b);
    Link(x, c, x.skew, d);
    Link(z, Node(a, n, n.skew, b), NoSkew, Node(c, x, x.skew, d));
  }

  /** avl_grownLeft on the linked nodes. */
  method GrowLeft(n: AvlNode, ghost l: Tree, ghost s: Skew, ghost r: Tree) returns (top: AvlNode, res: Res)
    requires Linked(n, Node(l, n, s, r)) && Sorted(InOrder(Node(l, n, s, r)))
    requires Balanced(l) && Balanced(r) && l.Node?
    requires Leans(s, Height(l) - 1, Height(r))
    requires s == LeftSkew ==> l.skew != NoSkew
    modifies Nodes(Node(l, n, s, r))
    ensures Linked(top, GrownLeft(l, n, s, r).0) && res == GrownLeft(l, n, s, r).1
  {
    SortedDisjoint(Node(l, n, s, r));
    SortedDisjoint(l);
    match n.skew {
      case LeftSkew =>
        if n.left.skew == LeftSkew {
          top := SingleRight(n, n.left, l.left, l.right, r);
        } else {
          assert Balanced(l.right) && Height(l.right) == Height(r) + 1;
          SortedDisjoint(l.right);
          assert Linked(n.left.right, l.right);
          top := DoubleRight(n, n.left, n.left.right, l.left, l.right.left, l.right.right, r);
        }
        res := Ok;
      case RightSkew =>
        n.skew := NoSkew;
        Link(n, l, NoSkew, r);
        top, res := n, Ok;
      case NoSkew =>
        n.skew := LeftSkew;
        Link(n, l, LeftSkew, r);
        top, res := n, Balance;
    }
  }

  /** avl_grownRight on the linked nodes. */
  method GrowRight(n: AvlNode, ghost l: Tree, ghost s: Skew, ghost r: Tree) returns (top: AvlNode, res: Res)
    requires Linked(n, Node(l, n, s, r)) && Sorted(InOrder(Node(l, n, s, r)))
    requires Balanced(l) && Balanced(r) && r.Node?
    requires Leans(s, Height(l), Height(r) - 1)
    requires s == RightSkew ==> r.skew != NoSkew
    modifies Nodes(Node(l, n, s, r))
    ensures Linked(top, GrownRight(l, n, s, r).0) && res == GrownRight(l, n, s, r).1
  {
    SortedDisjoint(Node(l, n, s, r));
    SortedDisjoint(r);
    match n.skew {
      case LeftSkew =>
        n.skew := NoSkew;
        Link(n, l, NoSkew, r);
        top, res := n, Ok;
      case RightSkew =>
        if n.right.skew == RightSkew {
          top := SingleLeft(n, n.right, l, r.left, r.right);
        } else {
          assert Balanced(r.left) && Height(r.left) == Height(l) + 1;
          SortedDisjoint(r.left);
          assert Linked(n.right.left, r.left);
          top := DoubleLeft(n, n.right, n.right.left, l, r.left.left, r.left.right, r.right);
        }
        res := Ok;
      case NoSkew =>
        n.skew := RightSkew;
        Link(n, l, RightSkew, r);
        top, res := n, Balance;
    }
  }

  /** _avl_add: the tree below root becomes the tree with the node inserted. */
  method Add(node: AvlNode, root: AvlNode?, ghost t: Tree) returns (top: AvlNode, res: Res)
    requires Linked(root, t) && Balanced(t) && Sorted(InOrder(t))
    requires node.left == null && node.right == null && node.skew == NoSkew && node !in Nodes(t)
    modifies Nodes(t), node
    ensures Linked(top, Insert(t, node).0) && res == Insert(t, node).1
    decreases t, 1
  {
    if root == null {
      Link(node, Empty, NoSkew, Empty);
      return node, Balance;
    }
    top := root;
    if node.key < root.key {
      top, res := AddLeft(node, root, t);
    } else if node.key > root.key {
      top, res := AddRight(node, root, t);
    } else {
      res := Ok;
    }
  }

  method AddLeft(node: AvlNode, root: AvlNode, ghost t: Tree) returns (top: AvlNode, res: Res)
    requires Linked(root, t) && Balanced(t) && Sorted(InOrder(t)) && node.key < root.key
    requires node.left == null && node.right == null && node.skew == NoSkew && node !in Nodes(t)
    modifies Nodes(t), node
    ensures Linked(top, Insert(t, node).0) && res == Insert(t, node).1
    decreases t, 0
  {
    ghost var l, s, r := t.left, t.skew, t.right;
    ghost var l' := Insert(l, node).0;
    BelowLeft(t, node);
    assert allocated(Nodes(r));
    var child, grown := Add(node, root.left, l);
    assert Linked(root.right, r);
    root.left := child;
    assert Linked(root.left, l') && Linked(root.right, r);
    Link(root, l', s, r);
    top, res := root, Ok;
    if grown == Balance {
      top, res := GrowLeft(root, l', s, r);
    }
  }

  method AddRight(node: AvlNode, root: AvlNode, ghost t: Tree) returns (top: AvlNode, res: Res)
    requires Linked(root, t) && Balanced(t) && Sorted(InOrder(t)) && node.key > root.key
    requires node.left == null && node.right == null && node.skew == NoSkew && node !in Nodes(t)
    modifies Nodes(t), node
    ensures Linked(top, Insert(t, node).0) && res == Insert(t, node).1
    decreases t, 0
  {
    ghost var l, s, r := t.left, t.skew, t.right;
    ghost var r' := Insert(r, node).0;
    BelowRight(t, node);
    assert allocated(Nodes(l));
    var child, grown := Add(node, root.right, r);
    assert Linked(root.left, l);
    root.right := child;
    assert Linked(root.left, l) && Linked(root.right, r');
    Link(root, l, s, r');
    top, res := root, Ok;
    if grown == Balance {
      top, res := GrowRight(root, l, s, r');
    }
  }

  /** Before rebalancing the tree is sorted as well, and made of the old nodes and the new one. */
  lemma {:induction false} BelowLeft(t: Tree, n: AvlNode)
    requires t.Node? && Balanced(t) && Sorted(InOrder(t)) && n.key < t.node.key && n !in Nodes(t)
    ensures var l' := Insert(t.left, n).0;
            && Sorted(InOrder(Node(l', t.node, t.skew, t.right)))
            && Nodes(l') <= Nodes(t.left) + {n} && t.node !in Nodes(l') && Nodes(l') !! Nodes(t.right)
    ensures Sorted(InOrder(t.left)) && n !in Nodes(t.left) && n !in Nodes(t.right)
    ensures t.node !in Nodes(t.left) && Nodes(t.left) !! Nodes(t.right) && t.node !in Nodes(t.right)
  {
    SortedParts(t);
    SortedDisjoint(t);
    InsertInOrder(t.left, n);
    InsertContents(t.left, n);
    PlacedLeft(InOrder(t.left), t.node, InOrder(t.right), n);
    PlacedContents(InOrder(t), n);
  }

  lemma {:induction false} BelowRight(t: Tree, n: AvlNode)
    requires t.Node? && Balanced(t) && Sorted(InOrder(t)) && n.key > t.node.key && n !in Nodes(t)
    ensures var r' := Insert(t.right, n).0;
            && Sorted(InOrder(Node(t.left, t.node, t.skew, r')))
            && Nodes(r') <= Nodes(t.right) + {n} && t.node !in Nodes(r') && Nodes(r') !! Nodes(t.left)
    ensures Sorted(InOrder(t.right)) && n !in Nodes(t.left) && n !in Nodes(t.right)
    ensures t.node !in Nodes(t.left) && Nodes(t.left) !! Nodes(t.right) && t.node !in Nodes(t.right)
  {
    SortedParts(t);
    SortedDisjoint(t);
    InsertInOrder(t.right, n);
    InsertContents(t.right, n);
    PlacedMiddle(InOrder(t.left), t.node, InOrder(t.right), n);
    PlacedContents(InOrder(t), n);
  }

  /** _avl_find: walks down from the root; parent is the node above the place reached. */
  method Find(key: int, root: AvlNode?, ghost t: Tree) returns (node: AvlNode?, parent: AvlNode?)
    requires Linked(root, t) && Sorted(InOrder(t))
    ensures node != null <==> key in Keys(t)
    ensures node != null ==> node in Nodes(t) && node.key == key
    ensures parent == null ==> node == root
    ensures parent != null ==> parent in Nodes(t) && parent.key != key
    ensures parent != null ==> node == if key < parent.key then parent.left else parent.right
  {
    node, parent := root, null;
    ghost var rest := t;
    while node != null
      invariant Linked(node, rest) && Sorted(InOrder(rest)) && Nodes(rest) <= Nodes(t)
      invariant key in Keys(t) <==> key in Keys(rest)
      invariant parent == null ==> node == root
      invariant parent != null ==> parent in Nodes(t) && parent.key != key
      invariant parent != null ==> node == if key < parent.key then parent.left else parent.right
      decreases rest
    {
      KeyBelow(rest, key);
      if key == node.key {
        break;
      }
      parent := node;
      if key < parent.key {
        node, rest := node.left, rest.left;
      } else {
        node, rest := node.right, rest.right;
      }
    }
  }

  /** A key other than the root's can only be on its side. */
  lemma KeyBelow(t: Tree, key: int)
    requires t.Node? && Sorted(InOrder(t))
    ensures Sorted(InOrder(t.left)) && Sorted(InOrder(t.right))
    ensures t.node.key in Keys(t)
    ensures key < t.node.key ==> (key in Keys(t) <==> key in Keys(t.left))
    ensures key > t.node.key ==> (key in Keys(t) <==> key in Keys(t.right))
  {
    SortedParts(t);
    assert InOrder(t)[|InOrder(t.left)|] == t.node;
    assert Keys(t) == Keys(t.left) + {t.node.key} + Keys(t.right) by {
      SplicedKeys(InOrder(t.left) + InOrder(t.right), |InOrder(t.left)|, t.node);
      var both := InOrder(t.left) + InOrder(t.right);
      assert both[..|InOrder(t.left)|] == InOrder(t.left) && both[|InOrder(t.left)|..] == InOrder(t.right);
      KeysOfConcat(InOrder(t.left), InOrder(t.right));
    }
  }

  lemma KeysOfConcat(a: seq<AvlNode>, b: seq<AvlNode>)
    ensures KeysOf(a + b) == KeysOf(a) + KeysOf(b)
  {
    assert forall i :: 0 <= i < |a| ==> a[i] == (a + b)[i];
    assert forall i :: 0 <= i < |b| ==> b[i] == (a + b)[|a| + i];
  }

  // ---- A tree built by insertions ----

  ghost function InsertAll(ns: seq<AvlNode>): (t: Tree)
    ensures Balanced(t)
  {
    if ns == [] then Empty else Insert(InsertAll(ns[..|ns| - 1]), ns[|ns| - 1]).0
  }

  /** After any sequence of insertions into an empty tree the keys found are exactly those
      inserted, in search order, and the height is logarithmic in their number. */
  lemma {:induction false} InsertAllContents(ns: seq<AvlNode>)
    ensures Sorted(InOrder(InsertAll(ns))) && Keys(InsertAll(ns)) == KeysOf(ns)
    ensures Pow2(Height(InsertAll(ns)) / 2) <= |ns| + 1
  {
    InsertAllSorted(ns);
    HeightLogarithmic(InsertAll(ns));
  }

  lemma {:induction false} InsertAllSorted(ns: seq<AvlNode>)
    ensures Sorted(InOrder(InsertAll(ns))) && Keys(InsertAll(ns)) == KeysOf(ns)
    ensures |InOrder(InsertAll(ns))| <= |ns|
  {
    hide Balanced, InOrder, Placed, Sorted, Keys, KeysOf, Insert;
    if ns == [] {
      NoneInserted();
    } else {
      var before, n := ns[..|ns| - 1], ns[|ns| - 1];
      InsertAllSorted(before);
      InsertOneMore(InsertAll(before), n);
      assert ns == before + [n];
      KeysOfConcat(before, [n]);
      KeysOfOne(n);
    }
  }

  lemma {:induction false} NoneInserted()
    ensures InOrder(InsertAll([])) == [] && Sorted([]) && Keys(InsertAll([])) == KeysOf([])
  {
  }

  lemma {:induction false} KeysOfOne(n: AvlNode)
    ensures KeysOf([n]) == {n.key}
  {
    assert n in [n];
  }

  lemma {:induction false} InsertOneMore(t: Tree, n: AvlNode)
    requires Sorted(InOrder(t)) && Balanced(t)
    ensures Sorted(InOrder(Insert(t, n).0)) && Keys(Insert(t, n).0) == Keys(t) + {n.key}
    ensures |InOrder(Insert(t, n).0)| <= |InOrder(t)| + 1
  {
    InsertContents(t, n);
    InsertInOrder(t, n);
    PlacedLength(InOrder(t), n);
  }

  lemma {:induction false} PlacedLength(s: seq<AvlNode>, n: AvlNode)
    ensures |Placed(s, n)| <= |s| + 1
  {
    if s != [] && n.key > s[0].key {
      PlacedLength(s[1..], n);
    }
  }

  /** A root variable together with the tree below it. */
  class AvlTree {
    var root: AvlNode?
    ghost var tree: Tree

    ghost predicate Valid()
      reads this, Nodes(tree)
    {
      Linked(root, tree) && Balanced(tree) && Sorted(InOrder(tree))
    }

    constructor ()
      ensures Valid() && tree == Empty
    {
      root, tree := null, Empty;
    }

    /** avl_add. */
    method Insert(node: AvlNode) returns (res: Res)
      requires Valid()
      requires node.left == null && node.right == null && node.skew == NoSkew && node !in Nodes(tree)
      modifies this, Nodes(tree), node
      ensures Valid()
      ensures tree == Inserted(old(tree), node)
      ensures Keys(tree) == old(Keys(tree)) + {node.key}
      ensures Nodes(tree) == if node.key in old(Keys(tree)) then old(Nodes(tree)) else old(Nodes(tree)) + {node}
      ensures res == Balance <==> Height(tree) == old(Height(tree)) + 1
    {
      InsertContents(tree, node);
      root, res := Add(node, root, tree);
      tree := Inserted(tree, node);
    }

    /** avl_find. */
    method Lookup(key: int) returns (node: AvlNode?)
      requires Valid()
      ensures node != null <==> key in Keys(tree)
      ensures node != null ==> node in Nodes(tree) && node.key == key
    {
      var parent;
      node, parent := Find(key, root, tree);
    }
  }

  ghost function Inserted(t: Tree, n: AvlNode): Tree
    requires Balanced(t)
  {
    Insert(t, n).0
  }

  // ---- Traversal ----

  ghost function PostOrder(t: Tree): seq<AvlNode> {
    match t
    case Empty => []
    case Node(l, n, _, r) => PostOrder(l) + PostOrder(r) + [n]
  }

  /** _avl_traverse hands out a node after both of its sides. */
  method Traverse(root: AvlNode?, ghost t: Tree) returns (visited: seq<AvlNode>)
    requires Linked(root, t)
    ensures visited == PostOrder(t)
    decreases t
  {
    if root == null {
      return [];
    }
    assert allocated(Nodes(t));
    var l := Traverse(root.left, t.left);
    var r := Traverse(root.right, t.right);
    visited := l + r + [root];
  }

  ghost predicate NoRightChild(t: Tree) {
    t.Node? ==> t.right.Empty? && NoRightChild(t.left)
  }

  /** The visits come in increasing order, as documented, exactly when no node has a right child. */
  lemma {:induction false} TraverseIncreasing(t: Tree)
    requires Sorted(InOrder(t))
    ensures Sorted(PostOrder(t)) <==> NoRightChild(t)
  {
    if t.Node? {
      SortedParts(t);
      TraverseIncreasing(t.left);
      var l, r := PostOrder(t.left), PostOrder(t.right);
      var s := PostOrder(t);
      if t.right.Node? {
        var i := |l| + |r| - 1;
        assert s[i] == t.right.node && s[i + 1] == t.node;
        assert t.right.node in InOrder(t.right);
      } else {
        assert s == l + [t.node];
        if Sorted(s) {
          assert l == s[..|l|];
        }
        forall m | m in l ensures m.key < t.node.key {
          PostOrderMember(t.left, m);
        }
      }
    }
  }

  lemma {:induction false} PostOrderMember(t: Tree, m: AvlNode)
    ensures m in PostOrder(t) <==> m in InOrder(t)
  {
    if t.Node? {
      PostOrderMember(t.left, m);
      PostOrderMember(t.right, m);
    }
  }

  /** Every node is visited once. */
  lemma {:induction false} PostOrderNodes(t: Tree)
    ensures multiset(PostOrder(t)) == multiset(InOrder(t))
  {
    if t.Node? {
      PostOrderNodes(t.left);
      PostOrderNodes(t.right);
    }
  }

  /** a is on one of the two sides of b. */
  ghost predicate Below(t: Tree, a: AvlNode, b: AvlNode) {
    t.Node? &&
    ((b == t.node && (a in InOrder(t.left) || a in InOrder(t.right))) || Below(t.left, a, b) || Below(t.right, a, b))
  }

  lemma {:induction false} BelowMembers(t: Tree, a: AvlNode, b: AvlNode)
    requires Below(t, a, b)
    ensures a in InOrder(t) && b in InOrder(t)
  {
    if Below(t.left, a, b) {
      BelowMembers(t.left, a, b);
    } else if Below(t.right, a, b) {
      BelowMembers(t.right, a, b);
    }
  }

  /** What is below a node is found on the side where the node is. */
  lemma {:induction false} BelowParts(t: Tree, a: AvlNode, b: AvlNode)
    requires t.Node? && Sorted(InOrder(t))
    ensures b in InOrder(t.left) ==> (Below(t, a, b) <==> Below(t.left, a, b))
    ensures b in InOrder(t.right) ==> (Below(t, a, b) <==> Below(t.right, a, b))
    ensures b == t.node ==> (Below(t, a, b) <==> a in InOrder(t.left) || a in InOrder(t.right))
  {
    SortedParts(t);
    if Below(t.left, a, b) {
      BelowMembers(t.left, a, b);
    }
    if Below(t.right, a, b) {
      BelowMembers(t.right, a, b);
    }
  }

  lemma {:induction false} Earlier(t: Tree, i: nat, j: nat)
    requires Sorted(InOrder(t)) && i < j < |PostOrder(t)|
    ensures var a, b := PostOrder(t)[i], PostOrder(t)[j];
            !Below(t, b, a) && (Below(t, a, b) || a.key < b.key)
  {
    var l := |PostOrder(t.left)|;
    var r := l + |PostOrder(t.right)|;
    var a, b := PostOrder(t)[i], PostOrder(t)[j];
    SortedParts(t);
    BelowParts(t, a, b);
    BelowParts(t, b, a);
    VisitedParts(t, i);
    VisitedParts(t, j);
    if j < l {
      Earlier(t.left, i, j);
    } else if l <= i && j < r {
      Earlier(t.right, i - l, j - l);
    } else if Below(if i < l then t.left else t.right, b, a) {
      BelowMembers(if i < l then t.left else t.right, b, a);
    }
  }

  lemma {:induction false} VisitedParts(t: Tree, i: nat)
    requires i < |PostOrder(t)|
    ensures var l := |PostOrder(t.left)|;
            var r := l + |PostOrder(t.right)|;
            var n := PostOrder(t)[i];
            if i < l then n == PostOrder(t.left)[i] && n in InOrder(t.left)
            else if i < r then n == PostOrder(t.right)[i - l] && n in InOrder(t.right)
            else n == t.node && i == r
  {
    PostOrderMember(t.left, PostOrder(t)[i]);
    PostOrderMember(t.right, PostOrder(t)[i]);
  }

  /** A node is visited before another one if it is below that, or if neither is below the other and
      its key is smaller. */
  lemma {:induction false} VisitedBefore(t: Tree, i: nat, j: nat)
    requires Sorted(InOrder(t)) && i < |PostOrder(t)| && j < |PostOrder(t)| && i != j
    ensures var a, b := PostOrder(t)[i], PostOrder(t)[j];
            i < j <==> Below(t, a, b) || (!Below(t, b, a) && a.key < b.key)
  {
    if i < j {
      Earlier(t, i, j);
    } else {
      Earlier(t, j, i);
    }
  }
}
