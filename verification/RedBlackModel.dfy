/**
  The red-black tree of sys-tree.h: node structs with left, right and parent links and a
  colour, rewired in place.  `mem` is the memory that holds the structs, by address.  A ghost
  tree describes the links; a ghost context (the path from a position up to the root)
  describes everything around that position.
 */
module RedBlackModel {
  type Ptr = nat
  const NULL: Ptr := 0

  datatype Color = Red | Black

  /** The element with its RB_ENTRY fields. */
  datatype Struct = Struct(key: int, left: Ptr, right: Ptr, parent: Ptr, color: Color)

  type Memory = map<Ptr, Struct>

  datatype Tree = Nil | Node(color: Color, left: Tree, n: Ptr, key: int, right: Tree)

  /** InLeft(c, n, k, r, up): the hole is n's left child; n has right subtree r. */
  datatype Ctx =
    | Top
    | InLeft(color: Color, n: Ptr, key: int, right: Tree, up: Ctx)
    | InRight(color: Color, left: Tree, n: Ptr, key: int, up: Ctx)

  function Root(t: Tree): Ptr { if t.Nil? then NULL else t.n }
  function Hole(c: Ctx): Ptr { if c.Top? then NULL else c.n }
  function HoleSet(c: Ctx): set<Ptr> { if c.Top? then {} else {c.n} }
  function ColorOf(t: Tree): Color { if t.Nil? then Black else t.color }
  function Paint(t: Tree, c: Color): Tree { if t.Nil? then t else t.(color := c) }

  function Nodes(t: Tree): set<Ptr> {
    match t
    case Nil => {}
    case Node(_, l, n, _, r) => {n} + Nodes(l) + Nodes(r)
  }

  function CtxNodes(c: Ctx): set<Ptr> {
    match c
    case Top => {}
    case InLeft(_, n, _, r, up) => {n} + Nodes(r) + CtxNodes(up)
    case InRight(_, l, n, _, up) => {n} + Nodes(l) + CtxNodes(up)
  }

  /** No node occurs twice, and NULL does not occur. */
  predicate Sep(t: Tree) {
    match t
    case Nil => true
    case Node(_, l, n, _, r) =>
      n != NULL && n !in Nodes(l) && n !in Nodes(r) && Nodes(l) !! Nodes(r) && Sep(l) && Sep(r)
  }

  predicate CtxSep(c: Ctx) {
    match c
    case Top => true
    case InLeft(_, n, _, r, up) =>
      n != NULL && n !in Nodes(r) && n !in CtxNodes(up) && Nodes(r) !! CtxNodes(up) && Sep(r) && CtxSep(up)
    case InRight(_, l, n, _, up) =>
      n != NULL && n !in Nodes(l) && n !in CtxNodes(up) && Nodes(l) !! CtxNodes(up) && Sep(l) && CtxSep(up)
  }

  /** The memory below `parent` is exactly the tree t, colours and parent links included. */
  predicate Shape(m: Memory, t: Tree, parent: Ptr) {
    match t
    case Nil => true
    case Node(c, l, n, k, r) =>
      n in m && m[n] == Struct(k, Root(l), Root(r), parent, c) && Shape(m, l, n) && Shape(m, r, n)
  }

  /** The memory around a hole filled by `hole` is exactly the context c. */
  predicate CtxShape(m: Memory, root: Ptr, c: Ctx, hole: Ptr)
    decreases c
  {
    match c
    case Top => root == hole
    case InLeft(col, n, k, r, up) =>
      && n in m && m[n] == Struct(k, hole, Root(r), Hole(up), col)
      && Shape(m, r, n) && CtxShape(m, root, up, n)
    case InRight(col, l, n, k, up) =>
      && n in m && m[n] == Struct(k, Root(l), hole, Hole(up), col)
      && Shape(m, l, n) && CtxShape(m, root, up, n)
  }

  /** The whole tree is context c around subtree t. */
  predicate At(m: Memory, root: Ptr, c: Ctx, t: Tree) {
    && Sep(t) && CtxSep(c) && Nodes(t) !! CtxNodes(c)
    && Shape(m, t, Hole(c)) && CtxShape(m, root, c, Root(t))
  }

  function Fill(c: Ctx, t: Tree): Tree
    decreases c
  {
    match c
    case Top => t
    case InLeft(col, n, k, r, up) => Fill(up, Node(col, t, n, k, r))
    case InRight(col, l, n, k, up) => Fill(up, Node(col, l, n, k, t))
  }

  function All(c: Ctx, t: Tree): set<Ptr> { Nodes(t) + CtxNodes(c) }

  function RotL(t: Tree): (r: Tree)
    requires t.Node? && t.right.Node?
    ensures r.Node? && r.left.Node?
  {
    var y := t.right;
    y.(left := t.(right := y.left))
  }

  function RotR(t: Tree): (r: Tree)
    requires t.Node? && t.left.Node?
    ensures r.Node? && r.right.Node?
  {
    var y := t.left;
    y.(right := t.(left := y.right))
  }

  // ----- Frames --------------------------------------------------------------

  predicate Same(m: Memory, m': Memory, ns: set<Ptr>) {
    forall n :: n in ns && n in m ==> n in m' && m'[n] == m[n]
  }

  lemma RestSame(m: Memory, m': Memory, ns: set<Ptr>)
    requires m.Keys == m'.Keys && Same(m, m', m.Keys - ns)
    ensures m - ns == m' - ns
  {
  }

  lemma {:induction false} SameShape(m: Memory, m': Memory, t: Tree, p: Ptr)
    requires Shape(m, t, p) && Same(m, m', Nodes(t))
    ensures Shape(m', t, p)
  {
    if t.Node? {
      SameShape(m, m', t.left, t.n);
      SameShape(m, m', t.right, t.n);
    }
  }

  lemma {:induction false} SameCtx(m: Memory, m': Memory, root: Ptr, c: Ctx, hole: Ptr)
    requires CtxShape(m, root, c, hole) && Same(m, m', CtxNodes(c))
    ensures CtxShape(m', root, c, hole)
    decreases c
  {
    match c
    case Top =>
    case InLeft(_, n, _, r, up) =>
      SameShape(m, m', r, n);
      SameCtx(m, m', root, up, n);
    case InRight(_, l, n, _, up) =>
      SameShape(m, m', l, n);
      SameCtx(m, m', root, up, n);
  }

  /** Only the root of t changed, and only its parent link. */
  lemma Reparented(m: Memory, m': Memory, t: Tree, q: Ptr, p: Ptr)
    requires Sep(t) && Shape(m, t, q) && Same(m, m', Nodes(t) - {Root(t)})
    requires t.Node? ==> t.n in m' && m'[t.n] == m[t.n].(parent := p)
    ensures Shape(m', t, p)
  {
    if t.Node? {
      SameShape(m, m', t.left, t.n);
      SameShape(m, m', t.right, t.n);
    }
  }

  /** The link that leads into the hole now leads to `target`. */
  predicate Redirected(m: Memory, m': Memory, root: Ptr, root': Ptr, c: Ctx, target: Ptr) {
    if c.Top? then root' == target
    else
      && root' == root && c.n in m && c.n in m'
      && m'[c.n] == if c.InLeft? then m[c.n].(left := target) else m[c.n].(right := target)
  }

  /** Only the link that leads into the hole changed. */
  lemma Relinked(m: Memory, m': Memory, root: Ptr, root': Ptr, c: Ctx, hole: Ptr, hole': Ptr)
    requires CtxSep(c) && CtxShape(m, root, c, hole) && Same(m, m', CtxNodes(c) - {Hole(c)})
    requires Redirected(m, m', root, root', c, hole')
    ensures CtxShape(m', root', c, hole')
  {
    match c
    case Top =>
    case InLeft(_, n, _, r, up) =>
      SameShape(m, m', r, n);
      SameCtx(m, m', root, up, n);
    case InRight(_, l, n, _, up) =>
      SameShape(m, m', l, n);
      SameCtx(m, m', root, up, n);
  }

  lemma RotLSep(t: Tree)
    requires t.Node? && t.right.Node? && Sep(t)
    ensures Sep(RotL(t)) && Nodes(RotL(t)) == Nodes(t)
  {
    assert Nodes(t.right) == {t.right.n} + Nodes(t.right.left) + Nodes(t.right.right);
    var x := t.(right := t.right.left);
    assert Sep(x) && Nodes(x) == {t.n} + Nodes(t.left) + Nodes(t.right.left);
  }

  lemma RotLNodes(c: Ctx, t: Tree)
    requires t.Node? && t.right.Node? && Sep(t) && CtxSep(c) && Nodes(t) !! CtxNodes(c)
    ensures var x, y, b := t.n, t.right.n, Root(t.right.left);
      && x in Nodes(t) && y in Nodes(t) && (b != NULL ==> b in Nodes(t)) && (t.right.left.Node? ==> b != NULL)
      && x != y && x != b && y != b && x != NULL && y != NULL
      && Hole(c) !in {x, y} && (b != NULL ==> Hole(c) != b)
  {
    assert Nodes(t.right) == {t.right.n} + Nodes(t.right.left) + Nodes(t.right.right);
    assert !c.Top? ==> c.n in CtxNodes(c);
    assert Sep(t.right) && Sep(t.right.left);
  }

  lemma RotLShape(m: Memory, m': Memory, t: Tree, p: Ptr)
    requires t.Node? && t.right.Node? && Sep(t) && Shape(m, t, p)
    requires t.n in m' && m'[t.n] == m[t.n].(right := Root(t.right.left), parent := t.right.n)
    requires t.right.n in m' && t.right.n in m && m'[t.right.n] == m[t.right.n].(left := t.n, parent := p)
    requires t.right.left.Node? ==>
      t.right.left.n in m && t.right.left.n in m' && m'[t.right.left.n] == m[t.right.left.n].(parent := t.n)
    requires Same(m, m', Nodes(t) - {t.n, t.right.n, Root(t.right.left)})
    ensures Shape(m', RotL(t), p)
  {
    assert Nodes(t.right) == {t.right.n} + Nodes(t.right.left) + Nodes(t.right.right);
    assert Root(t.right.left) != NULL ==> Root(t.right.left) in Nodes(t.right.left);
    assert Sep(t.right) && Shape(m, t.right, t.n);
    assert NULL !in Nodes(t.left) && NULL !in Nodes(t.right.right) by { SepNull(t.left); SepNull(t.right.right); }
    SameShape(m, m', t.left, t.n);
    SameShape(m, m', t.right.right, t.right.n);
    Reparented(m, m', t.right.left, t.right.n, t.n);
  }

  lemma {:induction false} SepNull(t: Tree)
    requires Sep(t)
    ensures NULL !in Nodes(t)
  {
    if t.Node? {
      SepNull(t.left);
      SepNull(t.right);
    }
  }

  lemma RotRSep(t: Tree)
    requires t.Node? && t.left.Node? && Sep(t)
    ensures Sep(RotR(t)) && Nodes(RotR(t)) == Nodes(t)
  {
    assert Nodes(t.left) == {t.left.n} + Nodes(t.left.left) + Nodes(t.left.right);
    var x := t.(left := t.left.right);
    assert Sep(x) && Nodes(x) == {t.n} + Nodes(t.left.right) + Nodes(t.right);
  }

  lemma RotRNodes(c: Ctx, t: Tree)
    requires t.Node? && t.left.Node? && Sep(t) && CtxSep(c) && Nodes(t) !! CtxNodes(c)
    ensures var x, y, b := t.n, t.left.n, Root(t.left.right);
      && x in Nodes(t) && y in Nodes(t) && (b != NULL ==> b in Nodes(t)) && (t.left.right.Node? ==> b != NULL)
      && x != y && x != b && y != b && x != NULL && y != NULL
      && Hole(c) !in {x, y} && (b != NULL ==> Hole(c) != b)
  {
    assert Nodes(t.left) == {t.left.n} + Nodes(t.left.left) + Nodes(t.left.right);
    assert !c.Top? ==> c.n in CtxNodes(c);
    assert Sep(t.left) && Sep(t.left.right);
  }

  lemma RotRShape(m: Memory, m': Memory, t: Tree, p: Ptr)
    requires t.Node? && t.left.Node? && Sep(t) && Shape(m, t, p)
    requires t.n in m' && m'[t.n] == m[t.n].(left := Root(t.left.right), parent := t.left.n)
    requires t.left.n in m' && t.left.n in m && m'[t.left.n] == m[t.left.n].(right := t.n, parent := p)
    requires t.left.right.Node? ==>
      t.left.right.n in m && t.left.right.n in m' && m'[t.left.right.n] == m[t.left.right.n].(parent := t.n)
    requires Same(m, m', Nodes(t) - {t.n, t.left.n, Root(t.left.right)})
    ensures Shape(m', RotR(t), p)
  {
    assert Nodes(t.left) == {t.left.n} + Nodes(t.left.left) + Nodes(t.left.right);
    assert Root(t.left.right) != NULL ==> Root(t.left.right) in Nodes(t.left.right);
    assert Sep(t.left) && Shape(m, t.left, t.n);
    assert NULL !in Nodes(t.right) && NULL !in Nodes(t.left.left) by { SepNull(t.right); SepNull(t.left.left); }
    SameShape(m, m', t.right, t.n);
    SameShape(m, m', t.left.left, t.left.n);
    Reparented(m, m', t.left.right, t.left.n, t.n);
  }

  /** The first half of RB_ROTATE_LEFT: x takes over y's inner subtree, y gets x's parent. */
  function DetachL(m: Memory, x: Ptr, y: Ptr, b: Ptr): Memory
    requires x in m && y in m && (b != NULL ==> b in m)
  {
    var m1 := m[x := m[x].(right := b)];
    var m2 := if b != NULL then m1[b := m1[b].(parent := x)] else m1;
    m2[y := m2[y].(parent := m2[x].parent)]
  }

  lemma DetachLCtx(m: Memory, root: Ptr, c: Ctx, t: Tree)
    requires t.Node? && t.right.Node? && At(m, root, c, t)
    ensures var x, y, b := t.n, t.right.n, Root(t.right.left);
      && x in m && y in m && (b != NULL ==> b in m) && m[x].right == y && m[y].left == b
      && CtxShape(DetachL(m, x, y, b), root, c, x)
  {
    RotLNodes(c, t);
    assert Shape(m, t.right, t.n) && Shape(m, t.right.left, t.right.n);
    SameCtx(m, DetachL(m, t.n, t.right.n, Root(t.right.left)), root, c, t.n);
  }

  /** The second half, after the link from above was moved to y. */
  lemma AttachL(m: Memory, m1: Memory, root: Ptr, root': Ptr, c: Ctx, t: Tree)
    requires t.Node? && t.right.Node? && At(m, root, c, t)
    requires var x, y, b := t.n, t.right.n, Root(t.right.left);
      && x in m && y in m && (b != NULL ==> b in m) && m1.Keys == m.Keys
      && Same(DetachL(m, x, y, b), m1, m.Keys - HoleSet(c)) && CtxShape(m1, root', c, y)
    ensures var x, y := t.n, t.right.n;
      var m2 := m1[y := m1[y].(left := x)];
      var m3 := m2[x := m2[x].(parent := y)];
      && At(m3, root', c, RotL(t)) && All(c, RotL(t)) == All(c, t) && m3 - All(c, t) == m - All(c, t)
  {
    var x, y, b := t.n, t.right.n, Root(t.right.left);
    var m2 := m1[y := m1[y].(left := x)];
    var m3 := m2[x := m2[x].(parent := y)];
    RotLNodes(c, t);
    assert m3 - All(c, t) == m - All(c, t) by {
      assert forall n :: n in m && n !in All(c, t) ==> n !in HoleSet(c) && n in DetachL(m, x, y, b);
    }
    assert CtxShape(m3, root', c, y) by {
      SameCtx(m1, m3, root', c, y);
    }
    assert Shape(m3, RotL(t), Hole(c)) by {
      assert Shape(m, t.right, x) && Shape(m, t.right.left, y);
      assert HoleSet(c) !! Nodes(t);
      RotLShape(m, m3, t, Hole(c));
    }
    RotLSep(t);
  }

  /** The first half of RB_ROTATE_RIGHT: x takes over y's inner subtree, y gets x's parent. */
  function DetachR(m: Memory, x: Ptr, y: Ptr, b: Ptr): Memory
    requires x in m && y in m && (b != NULL ==> b in m)
  {
    var m1 := m[x := m[x].(left := b)];
    var m2 := if b != NULL then m1[b := m1[b].(parent := x)] else m1;
    m2[y := m2[y].(parent := m2[x].parent)]
  }

  lemma DetachRCtx(m: Memory, root: Ptr, c: Ctx, t: Tree)
    requires t.Node? && t.left.Node? && At(m, root, c, t)
    ensures var x, y, b := t.n, t.left.n, Root(t.left.right);
      && x in m && y in m && (b != NULL ==> b in m) && m[x].left == y && m[y].right == b
      && CtxShape(DetachR(m, x, y, b), root, c, x)
  {
    RotRNodes(c, t);
    assert Shape(m, t.left, t.n) && Shape(m, t.left.right, t.left.n);
    SameCtx(m, DetachR(m, t.n, t.left.n, Root(t.left.right)), root, c, t.n);
  }

  /** The second half, after the link from above was moved to y. */
  lemma AttachR(m: Memory, m1: Memory, root: Ptr, root': Ptr, c: Ctx, t: Tree)
    requires t.Node? && t.left.Node? && At(m, root, c, t)
    requires var x, y, b := t.n, t.left.n, Root(t.left.right);
      && x in m && y in m && (b != NULL ==> b in m) && m1.Keys == m.Keys
      && Same(DetachR(m, x, y, b), m1, m.Keys - HoleSet(c)) && CtxShape(m1, root', c, y)
    ensures var x, y := t.n, t.left.n;
      var m2 := m1[y := m1[y].(right := x)];
      var m3 := m2[x := m2[x].(parent := y)];
      && At(m3, root', c, RotR(t)) && All(c, RotR(t)) == All(c, t) && m3 - All(c, t) == m - All(c, t)
  {
    var x, y, b := t.n, t.left.n, Root(t.left.right);
    var m2 := m1[y := m1[y].(right := x)];
    var m3 := m2[x := m2[x].(parent := y)];
    RotRNodes(c, t);
    assert m3 - All(c, t) == m - All(c, t) by {
      assert forall n :: n in m && n !in All(c, t) ==> n !in HoleSet(c) && n in DetachR(m, x, y, b);
    }
    assert CtxShape(m3, root', c, y) by {
      SameCtx(m1, m3, root', c, y);
    }
    assert Shape(m3, RotR(t), Hole(c)) by {
      assert Shape(m, t.left, x) && Shape(m, t.left.right, y);
      assert HoleSet(c) !! Nodes(t);
      RotRShape(m, m3, t, Hole(c));
    }
    RotRSep(t);
  }

  // ----- Moving the point of view --------------------------------------------

  function Plug(c: Ctx, t: Tree): (r: Tree)
    requires !c.Top?
    ensures r.Node?
  {
    if c.InLeft? then Node(c.color, t, c.n, c.key, c.right) else Node(c.color, c.left, c.n, c.key, t)
  }

  function LeftOf(c: Ctx, t: Tree): Ctx
    requires t.Node?
  {
    InLeft(t.color, t.n, t.key, t.right, c)
  }

  function RightOf(c: Ctx, t: Tree): Ctx
    requires t.Node?
  {
    InRight(t.color, t.left, t.n, t.key, c)
  }

  lemma Up(m: Memory, root: Ptr, c: Ctx, t: Tree)
    requires !c.Top? && At(m, root, c, t)
    ensures At(m, root, c.up, Plug(c, t)) && All(c.up, Plug(c, t)) == All(c, t)
  {
    assert c.n in CtxNodes(c);
  }

  lemma DownLeft(m: Memory, root: Ptr, c: Ctx, t: Tree)
    requires t.Node? && At(m, root, c, t)
    ensures At(m, root, LeftOf(c, t), t.left) && All(LeftOf(c, t), t.left) == All(c, t)
  {
  }

  lemma DownRight(m: Memory, root: Ptr, c: Ctx, t: Tree)
    requires t.Node? && At(m, root, c, t)
    ensures At(m, root, RightOf(c, t), t.right) && All(RightOf(c, t), t.right) == All(c, t)
  {
  }

  lemma PaintAt(m: Memory, root: Ptr, c: Ctx, t: Tree, col: Color)
    requires t.Node? && At(m, root, c, t)
    ensures t.n in m && At(m[t.n := m[t.n].(color := col)], root, c, t.(color := col))
  {
    var m' := m[t.n := m[t.n].(color := col)];
    SameShape(m, m', t.left, t.n);
    SameShape(m, m', t.right, t.n);
    SameCtx(m, m', root, c, t.n);
  }

  // ----- In-order contents ---------------------------------------------------

  datatype Ent = Ent(n: Ptr, key: int)

  function Inorder(t: Tree): seq<Ent> {
    match t
    case Nil => []
    case Node(_, l, n, k, r) => Inorder(l) + [Ent(n, k)] + Inorder(r)
  }

  /** The contents of a tree whose part at the hole has contents s. */
  function Wrap(c: Ctx, s: seq<Ent>): seq<Ent>
    decreases c
  {
    match c
    case Top => s
    case InLeft(_, n, k, r, up) => Wrap(up, s + [Ent(n, k)] + Inorder(r))
    case InRight(_, l, n, k, up) => Wrap(up, Inorder(l) + [Ent(n, k)] + s)
  }

  function Flat(c: Ctx, t: Tree): seq<Ent> { Wrap(c, Inorder(t)) }

  lemma Assoc(a: seq<Ent>, x: seq<Ent>, b: seq<Ent>, y: seq<Ent>, d: seq<Ent>)
    ensures a + x + (b + y + d) == (a + x + b) + y + d
  {
  }

  lemma RotLInorder(t: Tree)
    requires t.Node? && t.right.Node?
    ensures Inorder(RotL(t)) == Inorder(t)
  {
    Assoc(Inorder(t.left), [Ent(t.n, t.key)], Inorder(t.right.left), [Ent(t.right.n, t.right.key)],
      Inorder(t.right.right));
  }

  lemma RotRInorder(t: Tree)
    requires t.Node? && t.left.Node?
    ensures Inorder(RotR(t)) == Inorder(t)
  {
    Assoc(Inorder(t.left.left), [Ent(t.left.n, t.left.key)], Inorder(t.left.right), [Ent(t.n, t.key)],
      Inorder(t.right));
  }

  // ----- Colour invariants ---------------------------------------------------

  /** No red node has a red child. */
  predicate NoRR(t: Tree) {
    match t
    case Nil => true
    case Node(c, l, _, _, r) =>
      NoRR(l) && NoRR(r) && (c == Red ==> ColorOf(l) == Black && ColorOf(r) == Black)
  }

  /** Every path to a leaf passes h black nodes. */
  predicate Bal(t: Tree, h: int) {
    match t
    case Nil => h == 0
    case Node(c, l, _, _, r) => var k := if c == Black then h - 1 else h; Bal(l, k) && Bal(r, k)
  }

  /** The context around a hole of colour `hole` has no red node with a red child. */
  predicate CtxNoRR(c: Ctx, hole: Color)
    decreases c
  {
    match c
    case Top => true
    case InLeft(col, _, _, r, up) =>
      NoRR(r) && (col == Red ==> hole == Black && ColorOf(r) == Black) && CtxNoRR(up, col)
    case InRight(col, l, _, _, up) =>
      NoRR(l) && (col == Red ==> hole == Black && ColorOf(l) == Black) && CtxNoRR(up, col)
  }

  /** A hole of black height h makes all paths equal. */
  predicate CtxBal(c: Ctx, h: int)
    decreases c
  {
    match c
    case Top => true
    case InLeft(col, _, _, r, up) => Bal(r, h) && CtxBal(up, if col == Black then h + 1 else h)
    case InRight(col, l, _, _, up) => Bal(l, h) && CtxBal(up, if col == Black then h + 1 else h)
  }

  /** The root, when it is part of the context, is black. */
  predicate TopBlack(c: Ctx) {
    c.Top? || (if c.up.Top? then c.color == Black else TopBlack(c.up))
  }

  function Depth(c: Ctx): nat { if c.Top? then 0 else 1 + Depth(c.up) }

  ghost predicate RedBlack(t: Tree) {
    NoRR(t) && ColorOf(t) == Black && exists h: nat :: Bal(t, h)
  }

  // ----- Insertion -----------------------------------------------------------

  /** Everything holds except that t's red root may sit under a red parent. */
  predicate InsInv(c: Ctx, t: Tree, h: int) {
    && t.Node? && t.color == Red && NoRR(t) && Bal(t, h)
    && CtxBal(c, h) && CtxNoRR(c, Black) && TopBlack(c)
  }

  /** Parent and uncle red: recolour and continue at the grandparent (uncle on the right). */
  lemma InsRecolorLeft(c: Ctx, t: Tree, h: int)
    requires InsInv(c, t, h) && !c.Top? && c.color == Red && c.up.InLeft? && ColorOf(c.up.right) == Red
    ensures var g := c.up;
      InsInv(g.up, Node(Red, Plug(c, t).(color := Black), g.n, g.key, Paint(g.right, Black)), h + 1)
  {
    var g := c.up;
    assert CtxBal(g, h) && CtxNoRR(g, Red) && TopBlack(g) && g.color == Black;
    assert CtxBal(g.up, h + 1) && CtxNoRR(g.up, Black) && TopBlack(g.up);
    var q := Plug(c, t);
    var p, u := q.(color := Black), Paint(g.right, Black);
    assert Bal(p, h + 1) && NoRR(p);
    assert Bal(g.right, h) && NoRR(g.right) && Bal(u, h + 1) && NoRR(u);
  }

  /** Parent red, uncle black: one or two rotations repair the pair. */
  lemma InsRotateLeft(c: Ctx, t: Tree, h: int)
    requires InsInv(c, t, h) && !c.Top? && c.color == Red && c.up.InLeft? && ColorOf(c.up.right) == Black
    ensures var p := if c.InRight? then RotL(Plug(c, t)) else Plug(c, t);
      var g := c.up;
      var top := RotR(Node(Red, p.(color := Black), g.n, g.key, g.right));
      InsInv(LeftOf(g.up, top), top.left, h)
  {
    var g := c.up;
    assert CtxBal(g, h) && CtxNoRR(g, Red) && TopBlack(g) && g.color == Black;
    assert CtxBal(g.up, h + 1) && CtxNoRR(g.up, Black) && TopBlack(g.up);
    assert Bal(g.right, h) && NoRR(g.right);
    assert NoRR(t.left) && NoRR(t.right) && Bal(t.left, h) && Bal(t.right, h);
    var p := if c.InRight? then RotL(Plug(c, t)) else Plug(c, t);
    assert p.left.Node? && p.left.color == Red && NoRR(p.left) && Bal(p.left, h);
    assert ColorOf(p.right) == Black && NoRR(p.right) && Bal(p.right, h);
    var y := Node(Red, p.right, g.n, g.key, g.right);
    assert NoRR(y) && Bal(y, h);
  }

  /** Parent and uncle red: recolour and continue at the grandparent (uncle on the left). */
  lemma InsRecolorRight(c: Ctx, t: Tree, h: int)
    requires InsInv(c, t, h) && !c.Top? && c.color == Red && c.up.InRight? && ColorOf(c.up.left) == Red
    ensures var g := c.up;
      InsInv(g.up, Node(Red, Paint(g.left, Black), g.n, g.key, Plug(c, t).(color := Black)), h + 1)
  {
    var g := c.up;
    assert CtxBal(g, h) && CtxNoRR(g, Red) && TopBlack(g) && g.color == Black;
    assert CtxBal(g.up, h + 1) && CtxNoRR(g.up, Black) && TopBlack(g.up);
    var q := Plug(c, t);
    var p, u := q.(color := Black), Paint(g.left, Black);
    assert Bal(p, h + 1) && NoRR(p);
    assert Bal(g.left, h) && NoRR(g.left) && Bal(u, h + 1) && NoRR(u);
  }

  /** Parent red, uncle black: one or two rotations repair the pair. */
  lemma InsRotateRight(c: Ctx, t: Tree, h: int)
    requires InsInv(c, t, h) && !c.Top? && c.color == Red && c.up.InRight? && ColorOf(c.up.left) == Black
    ensures var p := if c.InLeft? then RotR(Plug(c, t)) else Plug(c, t);
      var g := c.up;
      var top := RotL(Node(Red, g.left, g.n, g.key, p.(color := Black)));
      InsInv(RightOf(g.up, top), top.right, h)
  {
    var g := c.up;
    assert CtxBal(g, h) && CtxNoRR(g, Red) && TopBlack(g) && g.color == Black;
    assert CtxBal(g.up, h + 1) && CtxNoRR(g.up, Black) && TopBlack(g.up);
    assert Bal(g.left, h) && NoRR(g.left);
    assert NoRR(t.left) && NoRR(t.right) && Bal(t.left, h) && Bal(t.right, h);
    var p := if c.InLeft? then RotR(Plug(c, t)) else Plug(c, t);
    assert p.right.Node? && p.right.color == Red && NoRR(p.right) && Bal(p.right, h);
    assert ColorOf(p.left) == Black && NoRR(p.left) && Bal(p.left, h);
    var y := Node(Red, g.left, g.n, g.key, p.left);
    assert NoRR(y) && Bal(y, h);
  }

  lemma RedHasUp(c: Ctx)
    requires !c.Top? && c.color == Red && TopBlack(c) && CtxNoRR(c, Black)
    ensures !c.up.Top? && c.up.color == Black
  {
  }

  lemma WrapStep(c: Ctx, t: Tree)
    requires !c.Top?
    ensures Flat(c, t) == Flat(c.up, Plug(c, t))
  {
  }

  // ----- Closing a context ---------------------------------------------------

  lemma {:induction false} FillAt(m: Memory, root: Ptr, c: Ctx, t: Tree)
    requires At(m, root, c, t)
    ensures At(m, root, Top, Fill(c, t)) && Nodes(Fill(c, t)) == All(c, t)
    decreases c
  {
    if !c.Top? {
      Up(m, root, c, t);
      FillAt(m, root, c.up, Plug(c, t));
    }
  }

  lemma {:induction false} FillInorder(c: Ctx, t: Tree)
    ensures Inorder(Fill(c, t)) == Flat(c, t)
    decreases c
  {
    if !c.Top? {
      FillInorder(c.up, Plug(c, t));
    }
  }

  lemma {:induction false} BalNat(t: Tree, h: int)
    requires Bal(t, h)
    ensures h >= 0
  {
    if t.Node? {
      BalNat(t.left, if t.color == Black then h - 1 else h);
    }
  }

  /** A position inside a correct red-black tree. */
  predicate Good(c: Ctx, t: Tree, h: int) {
    && NoRR(t) && Bal(t, h) && CtxNoRR(c, ColorOf(t)) && CtxBal(c, h)
    && TopBlack(c) && (c.Top? ==> ColorOf(t) == Black)
  }

  lemma {:induction false} FillGood(c: Ctx, t: Tree, h: int)
    requires Good(c, t, h)
    ensures RedBlack(Fill(c, t))
    decreases c
  {
    if c.Top? {
      BalNat(t, h);
    } else {
      FillGood(c.up, Plug(c, t), if c.color == Black then h + 1 else h);
    }
  }

  lemma DownGood(c: Ctx, t: Tree, h: int)
    requires Good(c, t, h) && t.Node?
    ensures var k := if t.color == Black then h - 1 else h;
      Good(LeftOf(c, t), t.left, k) && Good(RightOf(c, t), t.right, k)
  {
  }

  /** The root pointer leads to the outermost node of the context, which is black. */
  lemma {:induction false} RootBlack(m: Memory, root: Ptr, c: Ctx, hole: Ptr)
    requires !c.Top? && CtxShape(m, root, c, hole) && TopBlack(c) && CtxSep(c)
    ensures root != NULL && root in m && m[root].color == Black && root in CtxNodes(c)
    decreases c
  {
    if !c.up.Top? {
      RootBlack(m, root, c.up, c.n);
    }
  }

  /** What the links around a position tell the fix-up loops. */
  lemma Links(m: Memory, root: Ptr, c: Ctx, t: Tree)
    requires At(m, root, c, t)
    ensures t.Node? ==>
      t.n in m && t.n != NULL && m[t.n] == Struct(t.key, Root(t.left), Root(t.right), Hole(c), t.color)
    ensures c.Top? ==> root == Root(t)
    ensures !c.Top? ==>
      c.n in m && c.n != NULL && m[c.n].color == c.color && m[c.n].parent == Hole(c.up) && c.n != Root(t)
    ensures c.InLeft? ==> m[c.n].left == Root(t) && m[c.n].right == Root(c.right)
    ensures c.InRight? ==> m[c.n].right == Root(t) && m[c.n].left == Root(c.left)
    ensures c.InRight? && t.Node? ==> m[c.n].left != t.n
    ensures c.InLeft? && t.Node? ==> m[c.n].right != t.n
  {
    assert t.Node? ==> t.n in Nodes(t);
    assert c.InLeft? && c.right.Node? ==> c.right.n in CtxNodes(c);
    assert c.InRight? && c.left.Node? ==> c.left.n in CtxNodes(c);
    assert !c.Top? ==> c.n in CtxNodes(c);
  }

  // ----- Sorted contents -----------------------------------------------------

  ghost predicate Sorted(s: seq<Ent>) {
    forall i, j :: 0 <= i < j < |s| ==> s[i].key < s[j].key
  }

  /** What precedes and what follows the hole in order. */
  function Before(c: Ctx): seq<Ent> {
    match c
    case Top => []
    case InLeft(_, _, _, _, up) => Before(up)
    case InRight(_, l, n, k, up) => Before(up) + Inorder(l) + [Ent(n, k)]
  }

  function After(c: Ctx): seq<Ent> {
    match c
    case Top => []
    case InLeft(_, n, k, r, up) => [Ent(n, k)] + Inorder(r) + After(up)
    case InRight(_, _, _, _, up) => After(up)
  }

  lemma {:induction false} WrapSplit(c: Ctx, s: seq<Ent>)
    ensures Wrap(c, s) == Before(c) + s + After(c)
    decreases c
  {
    match c
    case Top =>
    case InLeft(_, n, k, r, up) =>
      WrapSplit(up, s + [Ent(n, k)] + Inorder(r));
      Assoc(Before(up), s, [Ent(n, k)], Inorder(r), After(up));
      assert Before(up) + (s + [Ent(n, k)] + Inorder(r)) + After(up)
          == Before(up) + s + ([Ent(n, k)] + Inorder(r) + After(up));
    case InRight(_, l, n, k, up) =>
      WrapSplit(up, Inorder(l) + [Ent(n, k)] + s);
      assert Before(up) + (Inorder(l) + [Ent(n, k)] + s) + After(up)
          == (Before(up) + Inorder(l) + [Ent(n, k)]) + s + After(up);
  }

  /** Key k belongs at this hole. */
  ghost predicate Bounds(c: Ctx, k: int) {
    (forall e :: e in Before(c) ==> e.key < k) && (forall e :: e in After(c) ==> k < e.key)
  }

  lemma SortedApart(x: seq<Ent>, y: seq<Ent>)
    requires Sorted(x + y)
    ensures forall u, v :: u in x && v in y ==> u.key < v.key
    ensures Sorted(x) && Sorted(y)
  {
    var s := x + y;
    forall u, v | u in x && v in y ensures u.key < v.key {
      var i :| 0 <= i < |x| && x[i] == u;
      var j :| 0 <= j < |y| && y[j] == v;
      assert s[i] == u && s[|x| + j] == v;
    }
    forall i, j | 0 <= i < j < |x| ensures x[i].key < x[j].key {
      assert s[i] == x[i] && s[j] == x[j];
    }
    forall i, j | 0 <= i < j < |y| ensures y[i].key < y[j].key {
      assert s[|x| + i] == y[i] && s[|x| + j] == y[j];
    }
  }

  /** A node's neighbours in order are on the right side of it. */
  lemma NodeOrder(a: seq<Ent>, l: seq<Ent>, e: Ent, r: seq<Ent>, b: seq<Ent>)
    requires Sorted(a + (l + [e] + r) + b)
    ensures forall x :: x in l ==> x.key < e.key
    ensures forall x :: x in r ==> e.key < x.key
  {
    SortedApart(a + (l + [e] + r), b);
    SortedApart(a, l + [e] + r);
    SortedApart(l + [e], r);
    SortedApart(l, [e]);
    assert e in l + [e] && e in [e];
  }

  lemma DownBounds(c: Ctx, t: Tree, k: int)
    requires t.Node? && Bounds(c, k) && Sorted(Flat(c, t))
    ensures k < t.key ==> Bounds(LeftOf(c, t), k)
    ensures k > t.key ==> Bounds(RightOf(c, t), k)
  {
    WrapSplit(c, Inorder(t));
    NodeOrder(Before(c), Inorder(t.left), Ent(t.n, t.key), Inorder(t.right), After(c));
  }

  /** The memory after RB_SET and the new link, when the search fell off the tree at context c. */
  lemma LinkNew(m: Memory, m': Memory, root: Ptr, root': Ptr, c: Ctx, n: Ptr)
    requires At(m, root, c, Nil) && n != NULL && n in m && n in m' && n !in CtxNodes(c)
    requires m'[n] == Struct(m[n].key, NULL, NULL, Hole(c), Red)
    requires Same(m, m', m.Keys - {n} - HoleSet(c))
    requires Redirected(m, m', root, root', c, n)
    ensures At(m', root', c, Node(Red, Nil, n, m[n].key, Nil))
    ensures Shape(m', Node(Red, Nil, n, m[n].key, Nil), Hole(c))
  {
    Relinked(m, m', root, root', c, NULL, n);
  }

  lemma SortedInsert(a: seq<Ent>, e: Ent, b: seq<Ent>)
    requires Sorted(a + b)
    requires forall x :: x in a ==> x.key < e.key
    requires forall x :: x in b ==> e.key < x.key
    ensures Sorted(a + [e] + b)
  {
    var s, s' := a + b, a + [e] + b;
    forall i, j | 0 <= i < j < |s'| ensures s'[i].key < s'[j].key {
      if i < |a| && j > |a| {
        assert s[i].key < s[j - 1].key;
      } else if i > |a| {
        assert s[i - 1].key < s[j - 1].key;
      } else if j < |a| {
        assert s[i].key < s[j].key;
      }
    }
  }

  /** Putting a leaf at the hole where its key belongs adds exactly that element, in order. */
  lemma InsertContents(c: Ctx, e: Ent)
    requires Sorted(Flat(c, Nil)) && Bounds(c, e.key)
    ensures var s, s' := Flat(c, Nil), Flat(c, Node(Red, Nil, e.n, e.key, Nil));
      && Sorted(s') && (forall x :: x in s' <==> x == e || x in s) && (forall x :: x in s ==> x.key != e.key)
  {
    WrapSplit(c, []);
    WrapSplit(c, [e]);
    assert Before(c) + [] + After(c) == Before(c) + After(c);
    assert Inorder(Node(Red, Nil, e.n, e.key, Nil)) == [e];
    SortedInsert(Before(c), e, After(c));
  }

  // ----- Removal -------------------------------------------------------------

  /** Everything holds except that t's paths are one black node short, and t's root may be red under red. */
  predicate RemInv(c: Ctx, t: Tree, h: int) {
    && NoRR(Paint(t, Black)) && Bal(t, h)
    && CtxBal(c, h + 1) && CtxNoRR(c, Black) && TopBlack(c)
  }

  lemma CtxNoRRBlack(c: Ctx, col: Color)
    requires CtxNoRR(c, col)
    ensures CtxNoRR(c, Black)
  {
  }

  /** The loop ended at a red node (or the root): blackening it pays the debt. */
  lemma RemDone(c: Ctx, t: Tree, h: int)
    requires RemInv(c, t, h) && (c.Top? || ColorOf(t) == Red)
    ensures if ColorOf(t) == Red then Good(c, Paint(t, Black), h + 1) else Good(c, t, h)
  {
  }

  function Measure(c: Ctx, t: Tree): nat { Depth(c) + if ColorOf(t) == Black then 1 else 0 }

  // -- deficient child on the left

  function RedSibLeft(p: Tree): Tree
    requires p.Node? && p.right.Node?
  {
    RotL(p.(color := Red, right := p.right.(color := Black)))
  }

  function InnerLeft(p: Tree): (r: Tree)
    requires p.Node? && p.right.Node? && (ColorOf(p.right.right) == Black ==> p.right.left.Node?)
    ensures r.Node? && r.right.Node?
  {
    if ColorOf(p.right.right) == Black then
      p.(right := RotR(p.right.(color := Red, left := p.right.left.(color := Black))))
    else p
  }

  function OuterLeft(p: Tree): Tree
    requires p.Node? && p.right.Node?
  {
    RotL(p.(color := Black, right := p.right.(color := p.color, right := Paint(p.right.right, Black))))
  }

  lemma ShiftLeftInorder(p: Tree)
    requires p.Node? && p.right.Node?
    ensures Inorder(RedSibLeft(p)) == Inorder(p) && Inorder(OuterLeft(p)) == Inorder(p)
    ensures Inorder(p.(right := p.right.(color := Red))) == Inorder(p)
    ensures (ColorOf(p.right.right) == Black ==> p.right.left.Node?) ==> Inorder(InnerLeft(p)) == Inorder(p)
  {
    var s := p.right;
    assert forall col :: Inorder(s.(color := col)) == Inorder(s);
    RotLInorder(p.(color := Red, right := s.(color := Black)));
    var s1 := s.(color := p.color, right := Paint(s.right, Black));
    assert Inorder(Paint(s.right, Black)) == Inorder(s.right);
    assert Inorder(s1) == Inorder(s);
    RotLInorder(p.(color := Black, right := s1));
    if ColorOf(s.right) == Black && s.left.Node? {
      var s2 := s.(color := Red, left := s.left.(color := Black));
      assert Inorder(s.left.(color := Black)) == Inorder(s.left);
      assert Inorder(s2) == Inorder(s);
      RotRInorder(s2);
    }
  }

  lemma SiblingExistsLeft(c: Ctx, t: Tree, h: int)
    requires RemInv(c, t, h) && c.InLeft?
    ensures c.right.Node?
    ensures c.right.color == Red ==> c.right.left.Node? && c.right.right.Node?
  {
    BalNat(t, h);
    assert Bal(c.right, h + 1);
    if c.right.Node? && c.right.color == Red {
      assert Bal(c.right.left, h + 1) && Bal(c.right.right, h + 1);
    }
  }

  lemma RemRedSibLeft(c: Ctx, t: Tree, h: int)
    requires RemInv(c, t, h) && c.InLeft? && ColorOf(t) == Black && ColorOf(c.right) == Red
    ensures var top := RedSibLeft(Plug(c, t));
      && RemInv(LeftOf(LeftOf(c.up, top), top.left), t, h)
      && top.left.Node? && top.left.left == t && ColorOf(top.left.right) == Black
  {
    SiblingExistsLeft(c, t, h);
    var s := c.right;
    assert c.color == Black && NoRR(s) && Bal(s, h + 1) && CtxBal(c.up, h + 2) && CtxNoRR(c.up, Black);
    assert Bal(s.left, h + 1) && Bal(s.right, h + 1) && ColorOf(s.left) == Black && ColorOf(s.right) == Black;
  }

  lemma RemRecolorLeft(c: Ctx, t: Tree, h: int)
    requires RemInv(c, t, h) && c.InLeft? && ColorOf(t) == Black
    requires c.right.Node? && c.right.color == Black
    requires ColorOf(c.right.left) == Black && ColorOf(c.right.right) == Black
    ensures var p := Plug(c, t);
      RemInv(c.up, p.(right := p.right.(color := Red)), if c.color == Black then h + 1 else h)
  {
    CtxNoRRBlack(c.up, c.color);
    var s := c.right.(color := Red);
    assert Bal(c.right, h + 1) && NoRR(c.right);
    assert Bal(s, h) && NoRR(s) && NoRR(t);
  }

  lemma RemOuterLeft(c: Ctx, t: Tree, h: int)
    requires RemInv(c, t, h) && c.InLeft? && ColorOf(t) == Black
    requires c.right.Node? && c.right.color == Black
    requires ColorOf(c.right.left) == Red || ColorOf(c.right.right) == Red
    ensures var p := InnerLeft(Plug(c, t));
      && p.left == t && p.color == c.color && ColorOf(p.right.right) == Red
      && Good(c.up, OuterLeft(p), if c.color == Black then h + 2 else h + 1)
  {
    var s := c.right;
    assert NoRR(s) && Bal(s, h + 1) && NoRR(t);
    assert Bal(s.left, h) && Bal(s.right, h);
    if ColorOf(s.right) == Black {
      var q := s.left;
      assert q.color == Red && NoRR(q) && ColorOf(q.left) == Black && ColorOf(q.right) == Black;
      assert NoRR(q.left) && NoRR(q.right) && Bal(q.left, h) && Bal(q.right, h);
      var s2 := s.(color := Red, left := q.right);
      assert NoRR(s2) && Bal(s2, h);
    }
    var p := InnerLeft(Plug(c, t));
    var s1 := p.right;
    assert s1.color == Black && NoRR(s1) && ColorOf(s1.right) == Red && Bal(s1.left, h) && Bal(s1.right, h);
    var near := p.(color := Black, right := s1.left);
    assert NoRR(near) && Bal(near, h + 1);
    assert NoRR(s1.right) && s1.right.Node?;
    var far := s1.right.(color := Black);
    assert NoRR(far) && Bal(far, h + 1);
  }

  // -- deficient child on the right

  function RedSibRight(p: Tree): Tree
    requires p.Node? && p.left.Node?
  {
    RotR(p.(color := Red, left := p.left.(color := Black)))
  }

  function InnerRight(p: Tree): (r: Tree)
    requires p.Node? && p.left.Node? && (ColorOf(p.left.left) == Black ==> p.left.right.Node?)
    ensures r.Node? && r.left.Node?
  {
    if ColorOf(p.left.left) == Black then
      p.(left := RotL(p.left.(color := Red, right := p.left.right.(color := Black))))
    else p
  }

  function OuterRight(p: Tree): Tree
    requires p.Node? && p.left.Node?
  {
    RotR(p.(color := Black, left := p.left.(color := p.color, left := Paint(p.left.left, Black))))
  }

  lemma ShiftRightInorder(p: Tree)
    requires p.Node? && p.left.Node?
    ensures Inorder(RedSibRight(p)) == Inorder(p) && Inorder(OuterRight(p)) == Inorder(p)
    ensures Inorder(p.(left := p.left.(color := Red))) == Inorder(p)
    ensures (ColorOf(p.left.left) == Black ==> p.left.right.Node?) ==> Inorder(InnerRight(p)) == Inorder(p)
  {
    var s := p.left;
    assert forall col :: Inorder(s.(color := col)) == Inorder(s);
    RotRInorder(p.(color := Red, left := s.(color := Black)));
    var s1 := s.(color := p.color, left := Paint(s.left, Black));
    assert Inorder(Paint(s.left, Black)) == Inorder(s.left);
    assert Inorder(s1) == Inorder(s);
    RotRInorder(p.(color := Black, left := s1));
    if ColorOf(s.left) == Black && s.right.Node? {
      var s2 := s.(color := Red, right := s.right.(color := Black));
      assert Inorder(s.right.(color := Black)) == Inorder(s.right);
      assert Inorder(s2) == Inorder(s);
      RotLInorder(s2);
    }
  }

  lemma SiblingExistsRight(c: Ctx, t: Tree, h: int)
    requires RemInv(c, t, h) && c.InRight?
    ensures c.left.Node?
    ensures c.left.color == Red ==> c.left.left.Node? && c.left.right.Node?
  {
    BalNat(t, h);
    assert Bal(c.left, h + 1);
    if c.left.Node? && c.left.color == Red {
      assert Bal(c.left.left, h + 1) && Bal(c.left.right, h + 1);
    }
  }

  lemma RemRedSibRight(c: Ctx, t: Tree, h: int)
    requires RemInv(c, t, h) && c.InRight? && ColorOf(t) == Black && ColorOf(c.left) == Red
    ensures var top := RedSibRight(Plug(c, t));
      && RemInv(RightOf(RightOf(c.up, top), top.right), t, h)
      && top.right.Node? && top.right.right == t && ColorOf(top.right.left) == Black
  {
    SiblingExistsRight(c, t, h);
    var s := c.left;
    assert c.color == Black && NoRR(s) && Bal(s, h + 1) && CtxBal(c.up, h + 2) && CtxNoRR(c.up, Black);
    assert Bal(s.left, h + 1) && Bal(s.right, h + 1) && ColorOf(s.left) == Black && ColorOf(s.right) == Black;
  }

  lemma RemRecolorRight(c: Ctx, t: Tree, h: int)
    requires RemInv(c, t, h) && c.InRight? && ColorOf(t) == Black
    requires c.left.Node? && c.left.color == Black
    requires ColorOf(c.left.left) == Black && ColorOf(c.left.right) == Black
    ensures var p := Plug(c, t);
      RemInv(c.up, p.(left := p.left.(color := Red)), if c.color == Black then h + 1 else h)
  {
    CtxNoRRBlack(c.up, c.color);
    var s := c.left.(color := Red);
    assert Bal(c.left, h + 1) && NoRR(c.left);
    assert Bal(s, h) && NoRR(s) && NoRR(t);
  }

  lemma RemOuterRight(c: Ctx, t: Tree, h: int)
    requires RemInv(c, t, h) && c.InRight? && ColorOf(t) == Black
    requires c.left.Node? && c.left.color == Black
    requires ColorOf(c.left.left) == Red || ColorOf(c.left.right) == Red
    ensures var p := InnerRight(Plug(c, t));
      && p.right == t && p.color == c.color && ColorOf(p.left.left) == Red
      && Good(c.up, OuterRight(p), if c.color == Black then h + 2 else h + 1)
  {
    var s := c.left;
    assert NoRR(s) && Bal(s, h + 1) && NoRR(t);
    assert Bal(s.left, h) && Bal(s.right, h);
    if ColorOf(s.left) == Black {
      var q := s.right;
      assert q.color == Red && NoRR(q) && ColorOf(q.left) == Black && ColorOf(q.right) == Black;
      assert NoRR(q.left) && NoRR(q.right) && Bal(q.left, h) && Bal(q.right, h);
      var s2 := s.(color := Red, right := q.left);
      assert NoRR(s2) && Bal(s2, h);
    }
    var p := InnerRight(Plug(c, t));
    var s1 := p.left;
    assert s1.color == Black && NoRR(s1) && ColorOf(s1.left) == Red && Bal(s1.right, h) && Bal(s1.left, h);
    var near := p.(color := Black, left := s1.right);
    assert NoRR(near) && Bal(near, h + 1);
    assert NoRR(s1.left) && s1.left.Node?;
    var far := s1.left.(color := Black);
    assert NoRR(far) && Bal(far, h + 1);
  }

  // ----- Unlinking a node ----------------------------------------------------

  /** The context `inner` inside the context `outer`. */
  function Append(inner: Ctx, outer: Ctx): Ctx {
    if inner.Top? then outer else inner.(up := Append(inner.up, outer))
  }

  lemma {:induction false} AppendUp(m: Memory, root: Ptr, inner: Ctx, outer: Ctx, t: Tree)
    requires At(m, root, Append(inner, outer), t)
    ensures At(m, root, outer, Fill(inner, t)) && All(outer, Fill(inner, t)) == All(Append(inner, outer), t)
    decreases inner
  {
    if !inner.Top? {
      Up(m, root, Append(inner, outer), t);
      assert Plug(Append(inner, outer), t) == Plug(inner, t);
      AppendUp(m, root, inner.up, outer, Plug(inner, t));
    }
  }

  lemma {:induction false} AppendDown(m: Memory, root: Ptr, inner: Ctx, outer: Ctx, t: Tree)
    requires At(m, root, outer, Fill(inner, t))
    ensures At(m, root, Append(inner, outer), t) && All(outer, Fill(inner, t)) == All(Append(inner, outer), t)
    decreases inner
  {
    if !inner.Top? {
      var p, c := Plug(inner, t), Append(inner.up, outer);
      AppendDown(m, root, inner.up, outer, p);
      if inner.InLeft? {
        DownLeft(m, root, c, p);
        assert LeftOf(c, p) == Append(inner, outer);
      } else {
        DownRight(m, root, c, p);
        assert RightOf(c, p) == Append(inner, outer);
      }
    }
  }

  /** The colour rules do not depend on which element sits where. */
  lemma {:induction false} AppendRenamed(inner: Ctx, outer: Ctx, outer': Ctx, h: int, col: Color)
    requires outer.InRight? && outer'.InRight? && outer' == outer.(n := outer'.n, key := outer'.key)
    ensures CtxBal(Append(inner, outer), h) <==> CtxBal(Append(inner, outer'), h)
    ensures CtxNoRR(Append(inner, outer), col) <==> CtxNoRR(Append(inner, outer'), col)
    ensures TopBlack(Append(inner, outer)) <==> TopBlack(Append(inner, outer'))
    decreases inner
  {
    if !inner.Top? {
      AppendRenamed(inner.up, outer, outer', if inner.color == Black then h + 1 else h, inner.color);
    }
  }

  /** t without its root, when the root has at most one child. */
  lemma SpliceOut(m: Memory, m': Memory, root: Ptr, root': Ptr, c: Ctx, t: Tree, child: Tree)
    requires t.Node? && At(m, root, c, t)
    requires child == t.left || child == t.right
    requires Redirected(m, m', root, root', c, Root(child))
    requires child.Node? ==> child.n in m && child.n in m' && m'[child.n] == m[child.n].(parent := Hole(c))
    requires Same(m, m', m.Keys - HoleSet(c) - Nodes(child)) && Same(m, m', Nodes(child) - {Root(child)})
    ensures At(m', root', c, child)
  {
    assert !c.Top? ==> c.n in CtxNodes(c);
    Relinked(m, m', root, root', c, t.n, Root(child));
    Reparented(m, m', child, t.n, Hole(c));
  }

  /** A good position loses a red node for free, a black one at the price of one black level. */
  lemma SpliceGood(c: Ctx, t: Tree, child: Tree, h: int)
    requires t.Node? && Good(c, t, h) && (child == t.left || child == t.right)
    ensures if t.color == Red then Good(c, child, h) else RemInv(c, child, h - 1)
  {
    CtxNoRRBlack(c, t.color);
    assert NoRR(child) && NoRR(Paint(child, Black));
    assert t.color == Red && !c.Top? ==> c.color == Black;
    assert Bal(t.left, if t.color == Black then h - 1 else h) && Bal(t.right, if t.color == Black then h - 1 else h);
  }

  /** Every position of a good tree is good. */
  lemma {:induction false} Locate(m: Memory, root: Ptr, c: Ctx, t: Tree, h: int, n: Ptr)
    returns (c': Ctx, t': Tree, h': int)
    requires At(m, root, c, t) && Good(c, t, h) && n in Nodes(t)
    ensures At(m, root, c', t') && Good(c', t', h') && t'.Node? && t'.n == n
    ensures Flat(c', t') == Flat(c, t) && All(c', t') == All(c, t)
    decreases t
  {
    if t.n == n {
      c', t', h' := c, t, h;
    } else {
      DownGood(c, t, h);
      var k := if t.color == Black then h - 1 else h;
      if n in Nodes(t.left) {
        DownLeft(m, root, c, t);
        WrapStep(LeftOf(c, t), t.left);
        c', t', h' := Locate(m, root, LeftOf(c, t), t.left, k, n);
      } else {
        DownRight(m, root, c, t);
        WrapStep(RightOf(c, t), t.right);
        c', t', h' := Locate(m, root, RightOf(c, t), t.right, k, n);
      }
    }
  }

  /** Element n takes over the place, colour and links of t's root. */
  lemma ReplaceRoot(m: Memory, m': Memory, root': Ptr, c: Ctx, t: Tree, n: Ptr, key: int)
    requires t.Node? && Sep(t) && CtxSep(c) && Nodes(t) !! CtxNodes(c) && Shape(m, t, Hole(c))
    requires n != NULL && n !in All(c, t) && CtxShape(m', root', c, n)
    requires n in m' && m'[n] == m[t.n].(key := key)
    requires t.left.Node? ==> t.left.n in m && t.left.n in m' && m'[t.left.n] == m[t.left.n].(parent := n)
    requires t.right.Node? ==> t.right.n in m && t.right.n in m' && m'[t.right.n] == m[t.right.n].(parent := n)
    requires Same(m, m', Nodes(t.left) - {Root(t.left)}) && Same(m, m', Nodes(t.right) - {Root(t.right)})
    ensures At(m', root', c, t.(n := n, key := key))
    ensures All(c, t.(n := n, key := key)) == All(c, t) - {t.n} + {n}
  {
    Reparented(m, m', t.left, t.n, n);
    Reparented(m, m', t.right, t.n, n);
  }

  /** What Replace needs to know about t's neighbourhood. */
  lemma Neighbours(m: Memory, root: Ptr, c: Ctx, t: Tree)
    requires At(m, root, c, t) && t.Node?
    ensures Sep(t.left) && Sep(t.right) && Nodes(t.left) !! Nodes(t.right)
    ensures t.n in Nodes(t) && t.n !in Nodes(t.left) + Nodes(t.right) && Nodes(t.left) + Nodes(t.right) <= Nodes(t)
    ensures t.left.Node? ==> t.left.n in Nodes(t.left) && t.left.n in m && t.left.n != NULL
    ensures t.right.Node? ==> t.right.n in Nodes(t.right) && t.right.n in m && t.right.n != NULL
    ensures HoleSet(c) <= CtxNodes(c) && HoleSet(c) <= m.Keys
  {
    assert Shape(m, t.left, t.n) && Shape(m, t.right, t.n);
  }

  predicate Spine(c: Ctx) {
    c.Top? || (c.InLeft? && Spine(c.up))
  }

  lemma {:induction false} SpineWrap(c: Ctx, s: seq<Ent>, x: Ent)
    requires Spine(c)
    ensures Wrap(c, [x] + s) == [x] + Wrap(c, s)
    decreases c
  {
    if !c.Top? {
      var rest := s + [Ent(c.n, c.key)] + Inorder(c.right);
      assert ([x] + s) + [Ent(c.n, c.key)] + Inorder(c.right) == [x] + rest;
      SpineWrap(c.up, rest, x);
    }
  }

  /** s with x taken out of the position between a and b. */
  lemma RemoveContents(c: Ctx, a: seq<Ent>, x: Ent, b: seq<Ent>)
    requires Sorted(Wrap(c, a + [x] + b))
    ensures var s, s' := Wrap(c, a + [x] + b), Wrap(c, a + b);
      Sorted(s') && x in s && (forall e :: e in s' <==> e in s && e != x)
  {
    WrapSplit(c, a + [x] + b);
    WrapSplit(c, a + b);
    var l, r := Before(c) + a, b + After(c);
    var s, s' := Wrap(c, a + [x] + b), Wrap(c, a + b);
    assert s == l + [x] + r && s' == l + r;
    RemoveAt(l, x, r);
  }

  lemma RemoveAt(l: seq<Ent>, x: Ent, r: seq<Ent>)
    requires Sorted(l + [x] + r)
    ensures Sorted(l + r) && forall e :: e in l + r <==> e in l + [x] + r && e != x
  {
    var s, s' := l + [x] + r, l + r;
    assert s[|l|] == x;
    forall i | 0 <= i < |s'| ensures s'[i] != x {
      var k := if i < |l| then i else i + 1;
      assert s'[i] == s[k];
      if k < |l| {
        assert s[k].key < s[|l|].key;
      } else {
        assert s[|l|].key < s[k].key;
      }
    }
    forall i, j | 0 <= i < j < |s'| ensures s'[i].key < s'[j].key {
      assert s[if i < |l| then i else i + 1].key < s[if j < |l| then j else j + 1].key;
    }
    forall e | e in s && e != x ensures e in s' {
      var i :| 0 <= i < |s| && s[i] == e;
      assert s'[if i < |l| then i else i - 1] == e;
    }
  }

  /** The order of a tree whose root's successor is at the end of the left spine of its right subtree. */
  lemma SuccessorOrder(c: Ctx, t: Tree, inner: Ctx, m: Tree)
    requires t.Node? && Spine(inner) && m.Node? && m.left.Nil? && t.right == Fill(inner, m)
    ensures Flat(c, t) ==
            Wrap(c, Inorder(t.left) + [Ent(t.n, t.key)] + ([Ent(m.n, m.key)] + Wrap(inner, Inorder(m.right))))
    ensures Flat(c, t.(n := m.n, key := m.key, right := Fill(inner, m.right)))
         == Wrap(c, Inorder(t.left) + ([Ent(m.n, m.key)] + Wrap(inner, Inorder(m.right))))
  {
    FillInorder(inner, m);
    FillInorder(inner, m.right);
    assert Inorder(m) == [Ent(m.n, m.key)] + Inorder(m.right);
    SpineWrap(inner, Inorder(m.right), Ent(m.n, m.key));
    var l, x, r := Inorder(t.left), [Ent(m.n, m.key)], Wrap(inner, Inorder(m.right));
    assert l + x + r == l + (x + r);
  }

  lemma {:induction false} AppendFlat(inner: Ctx, outer: Ctx, t: Tree)
    ensures Flat(Append(inner, outer), t) == Flat(outer, Fill(inner, t))
    decreases inner
  {
    if !inner.Top? {
      WrapStep(Append(inner, outer), t);
      AppendFlat(inner.up, outer, Plug(inner, t));
    }
  }

  lemma SpliceOrder(c: Ctx, t: Tree, child: Tree)
    requires t.Node? && Sorted(Flat(c, t))
    requires (child == t.left && t.right.Nil?) || (child == t.right && t.left.Nil?)
    ensures Sorted(Flat(c, child)) && Ent(t.n, t.key) in Flat(c, t)
    ensures forall e :: e in Flat(c, child) <==> e in Flat(c, t) && e != Ent(t.n, t.key)
  {
    RemoveContents(c, Inorder(t.left), Ent(t.n, t.key), Inorder(t.right));
    assert Inorder(child) == Inorder(t.left) + Inorder(t.right);
  }

  lemma SuccessorContents(c: Ctx, t: Tree, inner: Ctx, m: Tree)
    requires t.Node? && Spine(inner) && m.Node? && m.left.Nil? && t.right == Fill(inner, m) && Sorted(Flat(c, t))
    ensures var t' := t.(n := m.n, key := m.key, right := Fill(inner, m.right));
      Sorted(Flat(c, t')) && (forall e :: e in Flat(c, t') <==> e in Flat(c, t) && e != Ent(t.n, t.key))
  {
    SuccessorOrder(c, t, inner, m);
    RemoveContents(c, Inorder(t.left), Ent(t.n, t.key), [Ent(m.n, m.key)] + Wrap(inner, Inorder(m.right)));
  }

  // ----- The height bound ----------------------------------------------------

  function Height(t: Tree): nat {
    if t.Nil? then 0 else 1 + if Height(t.left) >= Height(t.right) then Height(t.left) else Height(t.right)
  }

  function Pow2(n: nat): (p: nat)
    ensures p > 0
  {
    if n == 0 then 1 else 2 * Pow2(n - 1)
  }

  /** h black levels force at least 2^h - 1 nodes and allow at most twice as many levels. */
  lemma {:induction false} BalSize(t: Tree, h: nat)
    requires NoRR(t) && Bal(t, h)
    ensures Pow2(h) <= |Inorder(t)| + 1
    ensures Height(t) <= 2 * h + if ColorOf(t) == Red then 1 else 0
  {
    if t.Node? {
      var k := if t.color == Black then h - 1 else h;
      BalNat(t.left, k);
      BalSize(t.left, k);
      BalSize(t.right, k);
    }
  }

  lemma {:induction false} Pow2Double(h: nat)
    ensures Pow2(2 * h) == Pow2(h) * Pow2(h)
  {
    if h > 0 {
      Pow2Double(h - 1);
      assert Pow2(2 * h) == 4 * Pow2(2 * (h - 1));
    }
  }

  lemma {:induction false} Pow2Mono(a: nat, b: nat)
    requires a <= b
    ensures Pow2(a) <= Pow2(b)
  {
    if a < b {
      Pow2Mono(a, b - 1);
    }
  }

  /** A red-black tree of n nodes has height at most 2 lg(n + 1): 2^height <= (n + 1)^2. */
  lemma HeightBound(t: Tree)
    requires RedBlack(t)
    ensures Pow2(Height(t)) <= (|Inorder(t)| + 1) * (|Inorder(t)| + 1)
  {
    var h: nat :| Bal(t, h);
    BalSize(t, h);
    Pow2Mono(Height(t), 2 * h);
    Pow2Double(h);
    SquareMono(Pow2(h), |Inorder(t)| + 1);
  }

  lemma SquareMono(a: nat, b: nat)
    requires a <= b
    ensures a * a <= b * b
  {
    assert a * a <= a * b <= b * b;
  }

  // ----- Order queries -------------------------------------------------------

  function First(s: seq<Ent>): Ptr { if s == [] then NULL else s[0].n }

  /** The contents that follow the root of t. */
  function Following(c: Ctx, t: Tree): seq<Ent>
    requires t.Node?
  {
    Inorder(t.right) + After(c)
  }

  lemma {:induction false} LeftmostFirst(t: Tree)
    requires t.Node?
    ensures First(Inorder(t)) == if t.left.Nil? then t.n else First(Inorder(t.left))
    ensures Inorder(t) != []
  {
    if t.left.Node? {
      LeftmostFirst(t.left);
    }
  }

  /** r is the element of least key not below `key`, or NULL when every key is below it. */
  ghost predicate IsFirstAtLeast(s: seq<Ent>, key: int, r: Ptr) {
    if r == NULL then forall e :: e in s ==> e.key < key
    else exists i :: 0 <= i < |s| && s[i].n == r && s[i].key >= key && (forall j :: 0 <= j < i ==> s[j].key < key)
  }

  /** r comes right after n in s, or n is last and r is NULL. */
  ghost predicate IsNext(s: seq<Ent>, n: Ptr, r: Ptr) {
    exists i :: 0 <= i < |s| && s[i].n == n && r == First(s[i + 1..])
  }

  lemma AtLeastHere(c: Ctx, t: Tree)
    requires t.Node? && Sorted(Flat(c, t)) && t.n != NULL
    ensures IsFirstAtLeast(Flat(c, t), t.key, t.n)
  {
    WrapSplit(c, Inorder(t));
    var i := |Before(c)| + |Inorder(t.left)|;
    assert Flat(c, t)[i] == Ent(t.n, t.key);
  }

  lemma AtLeastEnd(c: Ctx, key: int)
    requires Bounds(c, key) && (First(After(c)) == NULL ==> After(c) == [])
    ensures IsFirstAtLeast(Flat(c, Nil), key, First(After(c)))
  {
    WrapSplit(c, []);
    var s := Before(c) + After(c);
    assert Flat(c, Nil) == s;
    if After(c) != [] {
      assert s[|Before(c)|] == After(c)[0];
    }
  }

  lemma NextIs(c: Ctx, t: Tree)
    requires t.Node?
    ensures IsNext(Flat(c, t), t.n, First(Following(c, t)))
  {
    WrapSplit(c, Inorder(t));
    var i := |Before(c)| + |Inorder(t.left)|;
    var s := Flat(c, t);
    assert s == Before(c) + (Inorder(t.left) + [Ent(t.n, t.key)] + Inorder(t.right)) + After(c);
    assert s[i] == Ent(t.n, t.key) && s[i + 1..] == Following(c, t);
  }
}
