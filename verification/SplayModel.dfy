/**
  The top-down splay of sys-tree.h.  While it runs, the memory holds three pieces: the tree
  still to be searched, a left assembly whose nodes precede it and a right assembly whose
  nodes follow it.  Both assemblies hang off one struct on the stack, `NODE`.
 */
module SplayModel {
  type Ptr = int
  const NULL: Ptr := 0
  const NODE: Ptr := -1  // address of the local struct __node

  datatype Struct = Struct(key: int, left: Ptr, right: Ptr)

  type Memory = map<Ptr, Struct>

  datatype Tree = Nil | Node(left: Tree, n: Ptr, key: int, right: Tree)

  /** Nodes linked through their right fields, the last one added on top. */
  datatype LPath = LTop | LNode(up: LPath, left: Tree, n: Ptr, key: int)

  /** Nodes linked through their left fields, the last one added on top. */
  datatype RPath = RTop | RNode(up: RPath, n: Ptr, key: int, right: Tree)

  function Root(t: Tree): Ptr { if t.Nil? then NULL else t.n }
  function LTip(p: LPath): Ptr { if p.LTop? then NODE else p.n }
  function RTip(p: RPath): Ptr { if p.RTop? then NODE else p.n }

  function Nodes(t: Tree): set<Ptr> {
    if t.Nil? then {} else {t.n} + Nodes(t.left) + Nodes(t.right)
  }

  function LNodes(p: LPath): set<Ptr> {
    if p.LTop? then {} else {p.n} + Nodes(p.left) + LNodes(p.up)
  }

  function RNodes(p: RPath): set<Ptr> {
    if p.RTop? then {} else {p.n} + Nodes(p.right) + RNodes(p.up)
  }

  predicate Sep(t: Tree) {
    t.Node? ==> t.n > 0 && t.n !in Nodes(t.left) && t.n !in Nodes(t.right) && Nodes(t.left) !! Nodes(t.right)
                && Sep(t.left) && Sep(t.right)
  }

  predicate LSep(p: LPath) {
    p.LNode? ==> p.n > 0 && p.n !in Nodes(p.left) && p.n !in LNodes(p.up) && Nodes(p.left) !! LNodes(p.up)
                 && Sep(p.left) && LSep(p.up)
  }

  predicate RSep(p: RPath) {
    p.RNode? ==> p.n > 0 && p.n !in Nodes(p.right) && p.n !in RNodes(p.up) && Nodes(p.right) !! RNodes(p.up)
                 && Sep(p.right) && RSep(p.up)
  }

  predicate Shape(m: Memory, t: Tree) {
    t.Node? ==>
      t.n in m && m[t.n] == Struct(t.key, Root(t.left), Root(t.right)) && Shape(m, t.left) && Shape(m, t.right)
  }

  /** The right field of the tip is still to be set. */
  predicate LShape(m: Memory, p: LPath) {
    p.LNode? ==>
      && p.n in m && m[p.n].key == p.key && m[p.n].left == Root(p.left) && Shape(m, p.left)
      && LTip(p.up) in m && m[LTip(p.up)].right == p.n && LShape(m, p.up)
  }

  predicate RShape(m: Memory, p: RPath) {
    p.RNode? ==>
      && p.n in m && m[p.n].key == p.key && m[p.n].right == Root(p.right) && Shape(m, p.right)
      && RTip(p.up) in m && m[RTip(p.up)].left == p.n && RShape(m, p.up)
  }

  /** The state of the splay loop. */
  predicate Inv(m: Memory, lp: LPath, t: Tree, rp: RPath) {
    && NODE in m && t.Node?
    && Sep(t) && LSep(lp) && RSep(rp)
    && Nodes(t) !! LNodes(lp) && Nodes(t) !! RNodes(rp) && LNodes(lp) !! RNodes(rp)
    && Shape(m, t) && LShape(m, lp) && RShape(m, rp)
  }

  function All(lp: LPath, t: Tree, rp: RPath): set<Ptr> { LNodes(lp) + Nodes(t) + RNodes(rp) }

  // ----- Frames --------------------------------------------------------------

  predicate Same(m: Memory, m': Memory, ns: set<Ptr>) {
    forall n :: n in ns && n in m ==> n in m' && m'[n] == m[n]
  }

  lemma {:induction false} Positive(t: Tree)
    requires Sep(t)
    ensures forall n :: n in Nodes(t) ==> n > 0
  {
    if t.Node? {
      Positive(t.left);
      Positive(t.right);
    }
  }

  lemma {:induction false} LPositive(p: LPath)
    requires LSep(p)
    ensures forall n :: n in LNodes(p) ==> n > 0
  {
    if p.LNode? {
      Positive(p.left);
      LPositive(p.up);
    }
  }

  lemma {:induction false} RPositive(p: RPath)
    requires RSep(p)
    ensures forall n :: n in RNodes(p) ==> n > 0
  {
    if p.RNode? {
      Positive(p.right);
      RPositive(p.up);
    }
  }

  lemma {:induction false} SameShape(m: Memory, m': Memory, t: Tree)
    requires Shape(m, t) && Same(m, m', Nodes(t))
    ensures Shape(m', t)
  {
    if t.Node? {
      SameShape(m, m', t.left);
      SameShape(m, m', t.right);
    }
  }

  lemma {:induction false} SameL(m: Memory, m': Memory, p: LPath)
    requires LShape(m, p) && Same(m, m', LNodes(p))
    requires NODE in m && NODE in m' && m'[NODE].right == m[NODE].right
    ensures LShape(m', p)
  {
    if p.LNode? {
      SameShape(m, m', p.left);
      SameL(m, m', p.up);
      assert p.up.LNode? ==> LTip(p.up) in LNodes(p.up);
    }
  }

  lemma {:induction false} SameR(m: Memory, m': Memory, p: RPath)
    requires RShape(m, p) && Same(m, m', RNodes(p))
    requires NODE in m && NODE in m' && m'[NODE].left == m[NODE].left
    ensures RShape(m', p)
  {
    if p.RNode? {
      SameShape(m, m', p.right);
      SameR(m, m', p.up);
      assert p.up.RNode? ==> RTip(p.up) in RNodes(p.up);
    }
  }

  /** Setting the free right field of the tip. */
  lemma TipL(m: Memory, m': Memory, p: LPath, v: Ptr)
    requires LShape(m, p) && LSep(p) && NODE in m && LTip(p) in m
    requires LTip(p) in m' && NODE in m' && m'[LTip(p)] == m[LTip(p)].(right := v)
    requires Same(m, m', LNodes(p) - {LTip(p)}) && (p.LNode? ==> m'[NODE].right == m[NODE].right)
    ensures LShape(m', p)
  {
    if p.LNode? {
      SameShape(m, m', p.left);
      SameL(m, m', p.up);
      assert p.up.LNode? ==> LTip(p.up) in LNodes(p.up);
    }
  }

  lemma TipR(m: Memory, m': Memory, p: RPath, v: Ptr)
    requires RShape(m, p) && RSep(p) && NODE in m && RTip(p) in m
    requires RTip(p) in m' && NODE in m' && m'[RTip(p)] == m[RTip(p)].(left := v)
    requires Same(m, m', RNodes(p) - {RTip(p)}) && (p.RNode? ==> m'[NODE].left == m[NODE].left)
    ensures RShape(m', p)
  {
    if p.RNode? {
      SameShape(m, m', p.right);
      SameR(m, m', p.up);
      assert p.up.RNode? ==> RTip(p.up) in RNodes(p.up);
    }
  }

  // ----- Contents ------------------------------------------------------------

  datatype Ent = Ent(n: Ptr, key: int)

  function Inorder(t: Tree): seq<Ent> {
    if t.Nil? then [] else Inorder(t.left) + [Ent(t.n, t.key)] + Inorder(t.right)
  }

  function LOrder(p: LPath): seq<Ent> {
    if p.LTop? then [] else LOrder(p.up) + Inorder(p.left) + [Ent(p.n, p.key)]
  }

  function ROrder(p: RPath): seq<Ent> {
    if p.RTop? then [] else [Ent(p.n, p.key)] + Inorder(p.right) + ROrder(p.up)
  }

  /** Everything, in key order. */
  function Flat(lp: LPath, t: Tree, rp: RPath): seq<Ent> { LOrder(lp) + Inorder(t) + ROrder(rp) }

  ghost predicate Sorted(s: seq<Ent>) {
    forall i, j :: 0 <= i < j < |s| ==> s[i].key < s[j].key
  }

  // ----- The three moves -----------------------------------------------------

  function RotR(t: Tree): Tree
    requires t.Node? && t.left.Node?
  {
    t.left.(right := t.(left := t.left.right))
  }

  function RotL(t: Tree): Tree
    requires t.Node? && t.right.Node?
  {
    t.right.(left := t.(right := t.right.left))
  }

  lemma RotRShape(m: Memory, t: Tree)
    requires t.Node? && t.left.Node? && Sep(t) && Shape(m, t)
    ensures t.n in m && t.left.n in m && m[t.n].left == t.left.n && m[t.left.n].right == Root(t.left.right)
    ensures t.left.n in Nodes(t) && t.n in Nodes(t) && t.n != t.left.n
    ensures var m1 := m[t.n := m[t.n].(left := m[t.left.n].right)];
      var m2 := m1[t.left.n := m1[t.left.n].(right := t.n)];
      && Shape(m2, RotR(t)) && Sep(RotR(t)) && Nodes(RotR(t)) == Nodes(t)
  {
    var x, y := t.n, t.left.n;
    assert Shape(m, t.left) && Sep(t.left) && Nodes(t.left) == {y} + Nodes(t.left.left) + Nodes(t.left.right);
    var m1 := m[x := m[x].(left := m[y].right)];
    var m2 := m1[y := m1[y].(right := x)];
    SameShape(m, m2, t.left.left);
    SameShape(m, m2, t.left.right);
    SameShape(m, m2, t.right);
    var r := t.(left := t.left.right);
    assert Sep(r) && Nodes(r) == {x} + Nodes(t.left.right) + Nodes(t.right);
  }

  lemma RotateRight(m: Memory, lp: LPath, t: Tree, rp: RPath)
    requires Inv(m, lp, t, rp) && t.left.Node?
    ensures t.n in m && t.left.n in m && m[t.n].left == t.left.n && m[t.left.n].right == Root(t.left.right)
    ensures var m1 := m[t.n := m[t.n].(left := m[t.left.n].right)];
      var m2 := m1[t.left.n := m1[t.left.n].(right := t.n)];
      && Inv(m2, lp, RotR(t), rp) && Nodes(RotR(t)) == Nodes(t)
  {
    RotRShape(m, t);
    Positive(t);
    var m1 := m[t.n := m[t.n].(left := m[t.left.n].right)];
    var m2 := m1[t.left.n := m1[t.left.n].(right := t.n)];
    SameL(m, m2, lp);
    SameR(m, m2, rp);
  }

  lemma RotLShape(m: Memory, t: Tree)
    requires t.Node? && t.right.Node? && Sep(t) && Shape(m, t)
    ensures t.n in m && t.right.n in m && m[t.n].right == t.right.n && m[t.right.n].left == Root(t.right.left)
    ensures t.right.n in Nodes(t) && t.n in Nodes(t) && t.n != t.right.n
    ensures var m1 := m[t.n := m[t.n].(right := m[t.right.n].left)];
      var m2 := m1[t.right.n := m1[t.right.n].(left := t.n)];
      && Shape(m2, RotL(t)) && Sep(RotL(t)) && Nodes(RotL(t)) == Nodes(t)
  {
    var x, y := t.n, t.right.n;
    assert Shape(m, t.right) && Sep(t.right) && Nodes(t.right) == {y} + Nodes(t.right.left) + Nodes(t.right.right);
    var m1 := m[x := m[x].(right := m[y].left)];
    var m2 := m1[y := m1[y].(left := x)];
    SameShape(m, m2, t.right.left);
    SameShape(m, m2, t.right.right);
    SameShape(m, m2, t.left);
    var r := t.(right := t.right.left);
    assert Sep(r) && Nodes(r) == {x} + Nodes(t.right.left) + Nodes(t.left);
  }

  lemma RotateLeft(m: Memory, lp: LPath, t: Tree, rp: RPath)
    requires Inv(m, lp, t, rp) && t.right.Node?
    ensures t.n in m && t.right.n in m && m[t.n].right == t.right.n && m[t.right.n].left == Root(t.right.left)
    ensures var m1 := m[t.n := m[t.n].(right := m[t.right.n].left)];
      var m2 := m1[t.right.n := m1[t.right.n].(left := t.n)];
      && Inv(m2, lp, RotL(t), rp) && Nodes(RotL(t)) == Nodes(t)
  {
    RotLShape(m, t);
    Positive(t);
    var m1 := m[t.n := m[t.n].(right := m[t.right.n].left)];
    var m2 := m1[t.right.n := m1[t.right.n].(left := t.n)];
    SameL(m, m2, lp);
    SameR(m, m2, rp);
  }

  /** SPLAY_LINKLEFT: the root and its right subtree join the right assembly. */
  lemma LinkLeft(m: Memory, lp: LPath, t: Tree, rp: RPath)
    requires Inv(m, lp, t, rp) && t.left.Node?
    ensures RTip(rp) in m && t.n in m && m[t.n].left == t.left.n
    ensures var m' := m[RTip(rp) := m[RTip(rp)].(left := t.n)];
      var rp' := RNode(rp, t.n, t.key, t.right);
      && Inv(m', lp, t.left, rp') && All(lp, t.left, rp') == All(lp, t, rp)
  {
    assert rp.RNode? ==> rp.n in RNodes(rp);
    LPositive(lp);
    RPositive(rp);
    Positive(t);
    var m' := m[RTip(rp) := m[RTip(rp)].(left := t.n)];
    TipR(m, m', rp, t.n);
    SameL(m, m', lp);
    SameShape(m, m', t.left);
    SameShape(m, m', t.right);
  }

  /** SPLAY_LINKRIGHT: the root and its left subtree join the left assembly. */
  lemma LinkRight(m: Memory, lp: LPath, t: Tree, rp: RPath)
    requires Inv(m, lp, t, rp) && t.right.Node?
    ensures LTip(lp) in m && t.n in m && m[t.n].right == t.right.n
    ensures var m' := m[LTip(lp) := m[LTip(lp)].(right := t.n)];
      var lp' := LNode(lp, t.left, t.n, t.key);
      && Inv(m', lp', t.right, rp) && All(lp', t.right, rp) == All(lp, t, rp)
  {
    assert lp.LNode? ==> lp.n in LNodes(lp);
    LPositive(lp);
    RPositive(rp);
    Positive(t);
    var m' := m[LTip(lp) := m[LTip(lp)].(right := t.n)];
    TipL(m, m', lp, t.n);
    SameR(m, m', rp);
    SameShape(m, m', t.left);
    SameShape(m, m', t.right);
  }

  // ----- SPLAY_ASSEMBLE ------------------------------------------------------

  function AsmL(p: LPath, t: Tree): Tree
    decreases p
  {
    if p.LTop? then t else AsmL(p.up, Node(p.left, p.n, p.key, t))
  }

  function AsmR(p: RPath, t: Tree): Tree
    decreases p
  {
    if p.RTop? then t else AsmR(p.up, Node(t, p.n, p.key, p.right))
  }

  lemma {:induction false} AsmLShape(m: Memory, p: LPath, t: Tree)
    requires NODE in m && LShape(m, p) && Shape(m, t) && LTip(p) in m && m[LTip(p)].right == Root(t)
    ensures Shape(m, AsmL(p, t)) && m[NODE].right == Root(AsmL(p, t))
    decreases p
  {
    if p.LNode? {
      AsmLShape(m, p.up, Node(p.left, p.n, p.key, t));
    }
  }

  lemma {:induction false} AsmRShape(m: Memory, p: RPath, t: Tree)
    requires NODE in m && RShape(m, p) && Shape(m, t) && RTip(p) in m && m[RTip(p)].left == Root(t)
    ensures Shape(m, AsmR(p, t)) && m[NODE].left == Root(AsmR(p, t))
    decreases p
  {
    if p.RNode? {
      AsmRShape(m, p.up, Node(t, p.n, p.key, p.right));
    }
  }

  lemma {:induction false} AsmLSep(p: LPath, t: Tree)
    requires LSep(p) && Sep(t) && LNodes(p) !! Nodes(t)
    ensures Sep(AsmL(p, t)) && Nodes(AsmL(p, t)) == LNodes(p) + Nodes(t)
    decreases p
  {
    if p.LNode? {
      AsmLSep(p.up, Node(p.left, p.n, p.key, t));
    }
  }

  lemma {:induction false} AsmRSep(p: RPath, t: Tree)
    requires RSep(p) && Sep(t) && RNodes(p) !! Nodes(t)
    ensures Sep(AsmR(p, t)) && Nodes(AsmR(p, t)) == RNodes(p) + Nodes(t)
    decreases p
  {
    if p.RNode? {
      AsmRSep(p.up, Node(t, p.n, p.key, p.right));
    }
  }

  lemma {:induction false} AsmLOrder(p: LPath, t: Tree)
    ensures Inorder(AsmL(p, t)) == LOrder(p) + Inorder(t)
    decreases p
  {
    if p.LNode? {
      AsmLOrder(p.up, Node(p.left, p.n, p.key, t));
      assert LOrder(p.up) + (Inorder(p.left) + [Ent(p.n, p.key)] + Inorder(t))
          == LOrder(p.up) + Inorder(p.left) + [Ent(p.n, p.key)] + Inorder(t);
    }
  }

  lemma {:induction false} AsmROrder(p: RPath, t: Tree)
    ensures Inorder(AsmR(p, t)) == Inorder(t) + ROrder(p)
    decreases p
  {
    if p.RNode? {
      AsmROrder(p.up, Node(t, p.n, p.key, p.right));
      assert (Inorder(t) + [Ent(p.n, p.key)] + Inorder(p.right)) + ROrder(p.up)
          == Inorder(t) + ([Ent(p.n, p.key)] + Inorder(p.right) + ROrder(p.up));
    }
  }

  function Assembled(lp: LPath, t: Tree, rp: RPath): Tree
    requires t.Node?
  {
    Node(AsmL(lp, t.left), t.n, t.key, AsmR(rp, t.right))
  }

  lemma AssembledOrder(lp: LPath, t: Tree, rp: RPath)
    requires t.Node?
    ensures Inorder(Assembled(lp, t, rp)) == Flat(lp, t, rp)
  {
    AsmLOrder(lp, t.left);
    AsmROrder(rp, t.right);
    Assoc(LOrder(lp), Inorder(t.left), [Ent(t.n, t.key)], Inorder(t.right), ROrder(rp));
  }

  lemma Assoc(a: seq<Ent>, b: seq<Ent>, c: seq<Ent>, d: seq<Ent>, e: seq<Ent>)
    ensures (a + b) + c + (d + e) == a + (b + c + d) + e
  {
  }

  /** The first two stores of SPLAY_ASSEMBLE close the two assemblies. */
  lemma CloseAssemblies(m: Memory, lp: LPath, t: Tree, rp: RPath)
    requires Inv(m, lp, t, rp)
    ensures LTip(lp) in m && RTip(rp) in m && t.n in m
    ensures var m1 := m[LTip(lp) := m[LTip(lp)].(right := m[t.n].left)];
      var m2 := m1[RTip(rp) := m1[RTip(rp)].(left := m1[t.n].right)];
      && m2[t.n] == m[t.n]
      && Shape(m2, AsmL(lp, t.left)) && m2[NODE].right == Root(AsmL(lp, t.left))
      && Shape(m2, AsmR(rp, t.right)) && m2[NODE].left == Root(AsmR(rp, t.right))
  {
    assert lp.LNode? ==> lp.n in LNodes(lp);
    assert rp.RNode? ==> rp.n in RNodes(rp);
    LPositive(lp);
    RPositive(rp);
    Positive(t);
    var m1 := m[LTip(lp) := m[LTip(lp)].(right := m[t.n].left)];
    assert LShape(m1, lp) && RShape(m1, rp) && Shape(m1, t) by {
      TipL(m, m1, lp, m[t.n].left);
      SameR(m, m1, rp);
      SameShape(m, m1, t);
    }
    var m2 := m1[RTip(rp) := m1[RTip(rp)].(left := m1[t.n].right)];
    assert LShape(m2, lp) && RShape(m2, rp) && Shape(m2, t) by {
      TipR(m1, m2, rp, m1[t.n].right);
      SameL(m1, m2, lp);
      SameShape(m1, m2, t);
    }
    AsmLShape(m2, lp, t.left);
    AsmRShape(m2, rp, t.right);
  }

  lemma AssembledSep(lp: LPath, t: Tree, rp: RPath)
    requires t.Node? && Sep(t) && LSep(lp) && RSep(rp)
    requires Nodes(t) !! LNodes(lp) && Nodes(t) !! RNodes(rp) && LNodes(lp) !! RNodes(rp)
    ensures var r := Assembled(lp, t, rp);
      Sep(r) && Nodes(r) == All(lp, t, rp) && t.n !in Nodes(r.left) && t.n !in Nodes(r.right)
  {
    AsmLSep(lp, t.left);
    AsmRSep(rp, t.right);
  }

  /** The last two stores hang the assemblies below the root. */
  lemma JoinAssemblies(m: Memory, n: Ptr, l: Tree, r: Tree, key: int)
    requires n in m && NODE in m && n != NODE && n !in Nodes(l) && n !in Nodes(r) && m[n].key == key
    requires Shape(m, l) && m[NODE].right == Root(l) && Shape(m, r) && m[NODE].left == Root(r)
    ensures var m1 := m[n := m[n].(left := m[NODE].right)];
      var m2 := m1[n := m1[n].(right := m1[NODE].left)];
      Shape(m2, Node(l, n, key, r))
  {
    var m1 := m[n := m[n].(left := m[NODE].right)];
    var m2 := m1[n := m1[n].(right := m1[NODE].left)];
    SameShape(m, m2, l);
    SameShape(m, m2, r);
  }

  lemma RotROrder(t: Tree)
    requires t.Node? && t.left.Node?
    ensures Inorder(RotR(t)) == Inorder(t)
  {
    Assoc5(Inorder(t.left.left), [Ent(t.left.n, t.left.key)], Inorder(t.left.right), [Ent(t.n, t.key)],
      Inorder(t.right));
  }

  lemma RotLOrder(t: Tree)
    requires t.Node? && t.right.Node?
    ensures Inorder(RotL(t)) == Inorder(t)
  {
    Assoc5(Inorder(t.left), [Ent(t.n, t.key)], Inorder(t.right.left), [Ent(t.right.n, t.right.key)],
      Inorder(t.right.right));
  }

  lemma Assoc5(a: seq<Ent>, x: seq<Ent>, b: seq<Ent>, y: seq<Ent>, d: seq<Ent>)
    ensures (a + x + b) + y + d == a + x + (b + y + d)
  {
  }

  lemma LinkLeftOrder(lp: LPath, t: Tree, rp: RPath)
    requires t.Node?
    ensures Flat(lp, t.left, RNode(rp, t.n, t.key, t.right)) == Flat(lp, t, rp)
  {
    Regroup(LOrder(lp), Inorder(t.left), [Ent(t.n, t.key)], Inorder(t.right), ROrder(rp));
  }

  lemma LinkRightOrder(lp: LPath, t: Tree, rp: RPath)
    requires t.Node?
    ensures Flat(LNode(lp, t.left, t.n, t.key), t.right, rp) == Flat(lp, t, rp)
  {
    Regroup(LOrder(lp), Inorder(t.left), [Ent(t.n, t.key)], Inorder(t.right), ROrder(rp));
  }

  lemma Regroup(a: seq<Ent>, b: seq<Ent>, c: seq<Ent>, d: seq<Ent>, e: seq<Ent>)
    ensures a + b + (c + d + e) == a + (b + c + d) + e
    ensures (a + b + c) + d + e == a + (b + c + d) + e
  {
  }

  /** The invariant read at the root. */
  lemma AtRoot(m: Memory, lp: LPath, t: Tree, rp: RPath)
    requires Inv(m, lp, t, rp)
    ensures t.n in m && m[t.n] == Struct(t.key, Root(t.left), Root(t.right)) && t.n in Nodes(t) && t.n > 0
    ensures t.left.Node? ==> t.left.n in m && m[t.left.n].key == t.left.key && t.left.n > 0
    ensures t.right.Node? ==> t.right.n in m && m[t.right.n].key == t.right.key && t.right.n > 0
    ensures LTip(lp) in LNodes(lp) + {NODE} && RTip(rp) in RNodes(rp) + {NODE}
  {
    assert Shape(m, t.left) && Sep(t.left) && Shape(m, t.right) && Sep(t.right);
  }

  // ----- Where the search key lies -------------------------------------------

  predicate AllBelow(s: seq<Ent>, key: int) { forall e :: e in s ==> e.key < key }
  predicate AllAbove(s: seq<Ent>, key: int) { forall e :: e in s ==> key < e.key }

  lemma SortedApart(x: seq<Ent>, y: seq<Ent>)
    requires Sorted(x + y)
    ensures forall u, v :: u in x && v in y ==> u.key < v.key
    ensures Sorted(x) && Sorted(y)
  {
    var s := x + y;
    forall u, v | u in x && v in y ensures u.key < v.key {
      var i :| 0 <= i < |x| && x[i] == u;
      var j :| 0 <= j < |y| && y[j] == v;
      assert s[i] == u && s[|x| + j] == v;
    }
    forall i, j | 0 <= i < j < |x| ensures x[i].key < x[j].key {
      assert s[i] == x[i] && s[j] == x[j];
    }
    forall i, j | 0 <= i < j < |y| ensures y[i].key < y[j].key {
      assert s[|x| + i] == y[i] && s[|x| + j] == y[j];
    }
  }

  lemma NodeOrder(t: Tree)
    requires t.Node? && Sorted(Inorder(t))
    ensures AllBelow(Inorder(t.left), t.key) && AllAbove(Inorder(t.right), t.key)
    ensures Sorted(Inorder(t.left)) && Sorted(Inorder(t.right))
  {
    var l, e, r := Inorder(t.left), Ent(t.n, t.key), Inorder(t.right);
    SortedApart(l + [e], r);
    SortedApart(l, [e]);
    assert e in l + [e] && e in [e];
  }

  lemma MiddleSorted(lp: LPath, t: Tree, rp: RPath)
    requires Sorted(Flat(lp, t, rp))
    ensures Sorted(Inorder(t))
  {
    SortedApart(LOrder(lp) + Inorder(t), ROrder(rp));
    SortedApart(LOrder(lp), Inorder(t));
  }

  /** The root is the key, or the key would sit right next to it. */
  ghost predicate Splayed(t: Tree, key: int) {
    && t.Node?
    && (key < t.key ==> AllBelow(Inorder(t.left), key))
    && (key > t.key ==> AllAbove(Inorder(t.right), key))
  }

  /** Splaying finds the key whenever it is there. */
  lemma SplayFinds(t: Tree, e: Ent)
    requires Splayed(t, e.key) && Sorted(Inorder(t)) && e in Inorder(t)
    ensures t.key == e.key
  {
    NodeOrder(t);
  }

  lemma SplayEnds(lp: LPath, t: Tree, rp: RPath, key: int)
    requires t.Node? && AllBelow(LOrder(lp), key) && AllAbove(ROrder(rp), key)
    requires (key < t.key ==> t.left.Nil?) && (key > t.key ==> t.right.Nil?)
    ensures Splayed(Assembled(lp, t, rp), key)
  {
    AsmLOrder(lp, t.left);
    AsmROrder(rp, t.right);
  }

  function Size(t: Tree): nat { if t.Nil? then 0 else 1 + Size(t.left) + Size(t.right) }

  lemma LinkLeftAbove(lp: LPath, t: Tree, rp: RPath, key: int)
    requires t.Node? && Sorted(Flat(lp, t, rp)) && key < t.key && AllAbove(ROrder(rp), key)
    ensures AllAbove(ROrder(RNode(rp, t.n, t.key, t.right)), key)
  {
    MiddleSorted(lp, t, rp);
    NodeOrder(t);
  }

  lemma LinkRightBelow(lp: LPath, t: Tree, rp: RPath, key: int)
    requires t.Node? && Sorted(Flat(lp, t, rp)) && key > t.key && AllBelow(LOrder(lp), key)
    ensures AllBelow(LOrder(LNode(lp, t.left, t.n, t.key)), key)
  {
    MiddleSorted(lp, t, rp);
    NodeOrder(t);
  }

  lemma RotSize(t: Tree)
    requires t.Node?
    ensures t.left.Node? ==> Size(RotR(t)) == Size(t)
    ensures t.right.Node? ==> Size(RotL(t)) == Size(t)
  {
  }

  // ----- Insertion and removal at the root -----------------------------------

  lemma {:induction false} InNodes(t: Tree, e: Ent)
    requires e in Inorder(t)
    ensures e.n in Nodes(t)
  {
    if e in Inorder(t.left) {
      InNodes(t.left, e);
    } else if e in Inorder(t.right) {
      InNodes(t.right, e);
    }
  }

  /** The new element becomes the root between the two halves of the splayed tree. */
  lemma InsertOrder(a: seq<Ent>, e: Ent, b: seq<Ent>)
    requires Sorted(a + b) && AllBelow(a, e.key) && AllAbove(b, e.key)
    ensures Sorted(a + [e] + b)
  {
    var s, s' := a + b, a + [e] + b;
    forall i, j | 0 <= i < j < |s'| ensures s'[i].key < s'[j].key {
      if i < |a| && j > |a| {
        assert s[i].key < s[j - 1].key;
      } else if i > |a| {
        assert s[i - 1].key < s[j - 1].key;
      } else if j < |a| {
        assert s[i].key < s[j].key;
      }
    }
  }

  lemma RemoveOrder(l: seq<Ent>, x: Ent, r: seq<Ent>)
    requires Sorted(l + [x] + r)
    ensures Sorted(l + r) && Sorted(l) && forall e :: e in l + r <==> e in l + [x] + r && e != x
  {
    SortedApart(l + [x], r);
    SortedApart(l, [x]);
    assert x in [x] && x in l + [x];
    var s, s' := l + [x] + r, l + r;
    forall i, j | 0 <= i < j < |s'| ensures s'[i].key < s'[j].key {
      assert s[if i < |l| then i else i + 1].key < s[if j < |l| then j else j + 1].key;
    }
  }

  /** The tree after SPLAY_INSERT put (n, key) above the splayed tree t. */
  function Inserted(t: Tree, n: Ptr, key: int): Tree {
    if t.Nil? then Node(Nil, n, key, Nil)
    else if key < t.key then Node(t.left, n, key, t.(left := Nil))
    else Node(t.(right := Nil), n, key, t.right)
  }

  lemma InsertAdds(a: seq<Ent>, e: Ent, b: seq<Ent>)
    requires Sorted(a + b) && AllBelow(a, e.key) && AllAbove(b, e.key)
    ensures Sorted(a + [e] + b) && (forall x :: x in a + [e] + b <==> x == e || x in a + b)
    ensures forall x :: x in a + b ==> x.key != e.key
  {
    InsertOrder(a, e, b);
  }

  lemma InsertedLow(t: Tree, n: Ptr, key: int)
    requires t.Node?
    ensures Inorder(Node(t.left, n, key, t.(left := Nil)))
         == Inorder(t.left) + [Ent(n, key)] + ([Ent(t.n, t.key)] + Inorder(t.right))
    ensures Inorder(t) == Inorder(t.left) + ([Ent(t.n, t.key)] + Inorder(t.right))
  {
    assert Inorder(t.(left := Nil)) == [Ent(t.n, t.key)] + Inorder(t.right);
  }

  lemma InsertedHigh(t: Tree, n: Ptr, key: int)
    requires t.Node?
    ensures Inorder(Node(t.(right := Nil), n, key, t.right))
         == (Inorder(t.left) + [Ent(t.n, t.key)]) + [Ent(n, key)] + Inorder(t.right)
    ensures Inorder(t) == (Inorder(t.left) + [Ent(t.n, t.key)]) + Inorder(t.right)
  {
    assert Inorder(t.(right := Nil)) == Inorder(t.left) + [Ent(t.n, t.key)];
  }

  lemma InsertedOrder(t: Tree, n: Ptr, key: int)
    requires Sorted(Inorder(t)) && (t.Node? ==> Splayed(t, key) && t.key != key)
    ensures Sorted(Inorder(Inserted(t, n, key)))
    ensures forall e :: e in Inorder(Inserted(t, n, key)) <==> e == Ent(n, key) || e in Inorder(t)
    ensures forall e :: e in Inorder(t) ==> e.key != key
  {
    if t.Node? {
      NodeOrder(t);
      var y := [Ent(t.n, t.key)];
      if key < t.key {
        InsertedLow(t, n, key);
        InsertAdds(Inorder(t.left), Ent(n, key), y + Inorder(t.right));
      } else {
        InsertedHigh(t, n, key);
        InsertAdds(Inorder(t.left) + y, Ent(n, key), Inorder(t.right));
      }
    }
  }

  lemma HalfSep(t: Tree)
    requires t.Node? && Sep(t)
    ensures Sep(t.(left := Nil)) && Nodes(t.(left := Nil)) == {t.n} + Nodes(t.right)
    ensures Sep(t.(right := Nil)) && Nodes(t.(right := Nil)) == {t.n} + Nodes(t.left)
  {
  }

  lemma InsertedShapeLow(m: Memory, m': Memory, t: Tree, n: Ptr, key: int)
    requires t.Node? && Sep(t) && Shape(m, t) && n > 0 && n !in Nodes(t) && n in m' && t.n in m'
    requires Same(m, m', Nodes(t) - {t.n})
    requires m'[n] == Struct(key, Root(t.left), t.n) && m'[t.n] == Struct(t.key, NULL, Root(t.right))
    ensures var r := Node(t.left, n, key, t.(left := Nil));
      Shape(m', r) && Sep(r) && Nodes(r) == Nodes(t) + {n}
  {
    SameShape(m, m', t.left);
    SameShape(m, m', t.right);
    HalfSep(t);
    assert Shape(m', t.(left := Nil));
  }

  lemma InsertedShapeHigh(m: Memory, m': Memory, t: Tree, n: Ptr, key: int)
    requires t.Node? && Sep(t) && Shape(m, t) && n > 0 && n !in Nodes(t) && n in m' && t.n in m'
    requires Same(m, m', Nodes(t) - {t.n})
    requires m'[n] == Struct(key, t.n, Root(t.right)) && m'[t.n] == Struct(t.key, Root(t.left), NULL)
    ensures var r := Node(t.(right := Nil), n, key, t.right);
      Shape(m', r) && Sep(r) && Nodes(r) == Nodes(t) + {n}
  {
    SameShape(m, m', t.left);
    SameShape(m, m', t.right);
    HalfSep(t);
    assert Shape(m', t.(right := Nil));
  }

  lemma JoinOrder(t: Tree, l: Tree)
    requires t.Node? && Sorted(Inorder(t)) && l.Node? && Inorder(l) == Inorder(t.left) && l.right.Nil?
    ensures Sorted(Inorder(l.(right := t.right)))
    ensures forall e :: e in Inorder(l.(right := t.right)) <==> e in Inorder(t) && e != Ent(t.n, t.key)
  {
    assert Inorder(l) == Inorder(l.left) + [Ent(l.n, l.key)];
    assert Inorder(l.(right := t.right)) == Inorder(l) + Inorder(t.right);
    RemoveOrder(Inorder(t.left), Ent(t.n, t.key), Inorder(t.right));
  }

  lemma JoinShape(m: Memory, l: Tree, r: Tree)
    requires l.Node? && l.right.Nil? && Sep(l) && Sep(r) && Nodes(l) !! Nodes(r) && Shape(m, l) && Shape(m, r)
    ensures l.n in m && Shape(m[l.n := m[l.n].(right := Root(r))], l.(right := r))
    ensures Sep(l.(right := r)) && Nodes(l.(right := r)) == Nodes(l) + Nodes(r)
  {
    var m' := m[l.n := m[l.n].(right := Root(r))];
    assert l.n in Nodes(l);
    SameShape(m, m', l.left);
    SameShape(m, m', r);
  }
}
