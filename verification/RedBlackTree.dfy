/** RB_INSERT, RB_REMOVE and their fix-up loops (sys-tree.h), as they rewire the nodes. */
module RedBlackTree {
  import opened RedBlackModel

  class RBTree {
    var mem: Memory
    var root: Ptr
    ghost var tree: Tree

    /** A binary search tree with consistent parent links that satisfies the red-black rules. */
    ghost predicate Valid()
      reads this
    {
      At(mem, root, Top, tree) && RedBlack(tree) && Sorted(Inorder(tree))
    }

    /** The elements in the tree, with their keys. */
    ghost function Contents(): set<Ent>
      reads this
    {
      set e | e in Inorder(tree)
    }

    constructor (mem: Memory)
      ensures Valid() && this.mem == mem && Contents() == {}
    {
      this.mem, root, tree := mem, NULL, Nil;
      new;
      assert Bal(tree, 0);
    }

    /** Makes the link that reaches `node`, in its parent or the root pointer, reach `target`. */
    method Relink(node: Ptr, target: Ptr, ghost c: Ctx)
      requires node != NULL && node in mem && mem[node].parent == Hole(c)
      requires CtxSep(c) && CtxShape(mem, root, c, node) && node !in CtxNodes(c)
      modifies this`mem, this`root
      ensures CtxShape(mem, root, c, target)
      ensures Same(old(mem), mem, old(mem.Keys) - HoleSet(c)) && mem.Keys == old(mem.Keys)
    {
      var parent := mem[node].parent;
      assert c.InRight? && c.left.Node? ==> c.left.n in CtxNodes(c);
      if parent != NULL {
        if mem[parent].left == node {
          mem := mem[parent := mem[parent].(left := target)];
        } else {
          mem := mem[parent := mem[parent].(right := target)];
        }
      } else {
        root := target;
      }
      Relinked(old(mem), mem, old(root), root, c, node, target);
    }

    /** RB_ROTATE_LEFT */
    method RotateLeft(elm: Ptr, ghost c: Ctx, ghost t: Tree)
      requires t.Node? && t.right.Node? && t.n == elm && At(mem, root, c, t)
      modifies this
      ensures At(mem, root, c, RotL(t)) && All(c, RotL(t)) == All(c, t)
      ensures mem - All(c, t) == old(mem) - All(c, t)
    {
      DetachLCtx(mem, root, c, t);
      RotLNodes(c, t);
      var tmp := mem[elm].right;
      mem := mem[elm := mem[elm].(right := mem[tmp].left)];
      if mem[tmp].left != NULL {
        mem := mem[mem[tmp].left := mem[mem[tmp].left].(parent := elm)];
      }
      mem := mem[tmp := mem[tmp].(parent := mem[elm].parent)];
      assert mem == DetachL(old(mem), elm, tmp, Root(t.right.left));
      Relink(elm, tmp, c);
      AttachL(old(mem), mem, old(root), root, c, t);
      mem := mem[tmp := mem[tmp].(left := elm)];
      mem := mem[elm := mem[elm].(parent := tmp)];
    }

    /** RB_ROTATE_RIGHT */
    method RotateRight(elm: Ptr, ghost c: Ctx, ghost t: Tree)
      requires t.Node? && t.left.Node? && t.n == elm && At(mem, root, c, t)
      modifies this
      ensures At(mem, root, c, RotR(t)) && All(c, RotR(t)) == All(c, t)
      ensures mem - All(c, t) == old(mem) - All(c, t)
    {
      DetachRCtx(mem, root, c, t);
      RotRNodes(c, t);
      var tmp := mem[elm].left;
      mem := mem[elm := mem[elm].(left := mem[tmp].right)];
      if mem[tmp].right != NULL {
        mem := mem[mem[tmp].right := mem[mem[tmp].right].(parent := elm)];
      }
      mem := mem[tmp := mem[tmp].(parent := mem[elm].parent)];
      assert mem == DetachR(old(mem), elm, tmp, Root(t.left.right));
      Relink(elm, tmp, c);
      AttachR(old(mem), mem, old(root), root, c, t);
      mem := mem[tmp := mem[tmp].(right := elm)];
      mem := mem[elm := mem[elm].(parent := tmp)];
    }

    method SetColor(node: Ptr, col: Color, ghost c: Ctx, ghost t: Tree)
      requires t.Node? && t.n == node && At(mem, root, c, t)
      modifies this`mem
      ensures At(mem, root, c, t.(color := col)) && All(c, t.(color := col)) == All(c, t)
      ensures mem - All(c, t) == old(mem) - All(c, t)
    {
      PaintAt(mem, root, c, t, col);
      mem := mem[node := mem[node].(color := col)];
    }

    /** Uncle red: blacken parent and uncle, redden the grandparent. */
    method InsertRecolorLeft(parent: Ptr, gparent: Ptr, uncle: Ptr, ghost up: Ctx, ghost g: Tree)
      returns (ghost g': Tree)
      requires At(mem, root, up, g) && g.Node? && g.left.Node? && g.right.Node?
      requires g.n == gparent && g.left.n == parent && g.right.n == uncle
      modifies this
      ensures g' == Node(Red, g.left.(color := Black), g.n, g.key, g.right.(color := Black))
      ensures At(mem, root, up, g') && Inorder(g') == Inorder(g)
      ensures All(up, g') == All(up, g) && mem - All(up, g) == old(mem) - All(up, g)
    {
      DownRight(mem, root, up, g);
      SetColor(uncle, Black, RightOf(up, g), g.right);
      Up(mem, root, RightOf(up, g), g.right.(color := Black));
      g' := g.(right := g.right.(color := Black));
      DownLeft(mem, root, up, g');
      SetColor(parent, Black, LeftOf(up, g'), g'.left);
      Up(mem, root, LeftOf(up, g'), g'.left.(color := Black));
      g' := g'.(left := g'.left.(color := Black));
      SetColor(gparent, Red, up, g');
      g' := g'.(color := Red);
    }

    /** Uncle black: bring the red pair in line, then rotate the grandparent down. */
    method InsertRotateLeft(node: Ptr, parent: Ptr, gparent: Ptr, ghost up: Ctx, ghost g: Tree, ghost inner: bool)
      returns (elm: Ptr, ghost top: Tree)
      requires At(mem, root, up, g) && g.Node? && g.left.Node? && g.n == gparent && g.left.n == parent
      requires if inner then g.left.right.Node? && g.left.right.n == node
               else g.left.left.Node? && g.left.left.n == node && Root(g.left.right) != node
      modifies this
      ensures var p := if inner then RotL(g.left) else g.left;
        && top == RotR(g.(color := Red, left := p.(color := Black)))
        && top.left.Node? && elm == top.left.n
      ensures At(mem, root, up, top) && Inorder(top) == Inorder(g)
      ensures All(up, top) == All(up, g) && mem - All(up, g) == old(mem) - All(up, g)
    {
      elm := node;
      var par := parent;
      ghost var p := g.left;
      DownLeft(mem, root, up, g);
      if mem[par].right == elm {
        RotLInorder(p);
        RotateLeft(par, LeftOf(up, g), p);
        p := RotL(p);
        par, elm := elm, par;
      }
      SetColor(par, Black, LeftOf(up, g), p);
      p := p.(color := Black);
      Up(mem, root, LeftOf(up, g), p);
      ghost var g1 := g.(left := p);
      SetColor(gparent, Red, up, g1);
      g1 := g1.(color := Red);
      RotRInorder(g1);
      RotateRight(gparent, up, g1);
      top := RotR(g1);
    }

    /** One round of RB_INSERT_COLOR when the parent is the grandparent's left child. */
    method InsertFixLeft(node: Ptr, parent: Ptr, gparent: Ptr, ghost c: Ctx, ghost t: Tree, ghost h: int)
      returns (elm: Ptr, ghost c': Ctx, ghost t': Tree, ghost h': int)
      requires At(mem, root, c, t) && InsInv(c, t, h) && t.n == node
      requires !c.Top? && c.color == Red && c.n == parent && c.up.InLeft? && c.up.n == gparent
      modifies this
      ensures At(mem, root, c', t') && InsInv(c', t', h') && t'.n == elm
      ensures Depth(c') < Depth(c) && Flat(c', t') == Flat(c, t)
      ensures All(c', t') == All(c, t) && mem - All(c, t) == old(mem) - All(c, t)
    {
      ghost var up, p := c.up.up, Plug(c, t);
      Up(mem, root, c, t);
      Up(mem, root, c.up, p);
      ghost var g := Plug(c.up, p);
      WrapStep(c, t);
      WrapStep(c.up, p);
      assert Shape(mem, g, Hole(up)) && Shape(mem, g.right, gparent) && Sep(g.right);
      var uncle := mem[gparent].right;
      if uncle != NULL && mem[uncle].color == Red {
        InsRecolorLeft(c, t, h);
        t' := InsertRecolorLeft(parent, gparent, uncle, up, g);
        elm, c', h' := gparent, up, h + 1;
      } else {
        InsRotateLeft(c, t, h);
        assert Sep(g) && Sep(p);
        assert t.n in Nodes(t) && (c.InLeft? && c.right.Node? ==> c.right.n in Nodes(c.right));
        assert c.InRight? && c.left.Node? ==> c.left.n in Nodes(c.left);
        ghost var top;
        elm, top := InsertRotateLeft(node, parent, gparent, up, g, c.InRight?);
        DownLeft(mem, root, up, top);
        WrapStep(LeftOf(up, top), top.left);
        c', t', h' := LeftOf(up, top), top.left, h;
      }
    }

    /** Uncle red: blacken parent and uncle, redden the grandparent. */
    method InsertRecolorRight(parent: Ptr, gparent: Ptr, uncle: Ptr, ghost up: Ctx, ghost g: Tree)
      returns (ghost g': Tree)
      requires At(mem, root, up, g) && g.Node? && g.left.Node? && g.right.Node?
      requires g.n == gparent && g.right.n == parent && g.left.n == uncle
      modifies this
      ensures g' == Node(Red, g.left.(color := Black), g.n, g.key, g.right.(color := Black))
      ensures At(mem, root, up, g') && Inorder(g') == Inorder(g)
      ensures All(up, g') == All(up, g) && mem - All(up, g) == old(mem) - All(up, g)
    {
      DownLeft(mem, root, up, g);
      SetColor(uncle, Black, LeftOf(up, g), g.left);
      Up(mem, root, LeftOf(up, g), g.left.(color := Black));
      g' := g.(left := g.left.(color := Black));
      DownRight(mem, root, up, g');
      SetColor(parent, Black, RightOf(up, g'), g'.right);
      Up(mem, root, RightOf(up, g'), g'.right.(color := Black));
      g' := g'.(right := g'.right.(color := Black));
      SetColor(gparent, Red, up, g');
      g' := g'.(color := Red);
    }

    /** Uncle black: bring the red pair in line, then rotate the grandparent down. */
    method InsertRotateRight(node: Ptr, parent: Ptr, gparent: Ptr, ghost up: Ctx, ghost g: Tree, ghost inner: bool)
      returns (elm: Ptr, ghost top: Tree)
      requires At(mem, root, up, g) && g.Node? && g.right.Node? && g.n == gparent && g.right.n == parent
      requires if inner then g.right.left.Node? && g.right.left.n == node
               else g.right.right.Node? && g.right.right.n == node && Root(g.right.left) != node
      modifies this
      ensures var p := if inner then RotR(g.right) else g.right;
        && top == RotL(g.(color := Red, right := p.(color := Black)))
        && top.right.Node? && elm == top.right.n
      ensures At(mem, root, up, top) && Inorder(top) == Inorder(g)
      ensures All(up, top) == All(up, g) && mem - All(up, g) == old(mem) - All(up, g)
    {
      elm := node;
      var par := parent;
      ghost var p := g.right;
      DownRight(mem, root, up, g);
      if mem[par].left == elm {
        RotRInorder(p);
        RotateRight(par, RightOf(up, g), p);
        p := RotR(p);
        par, elm := elm, par;
      }
      SetColor(par, Black, RightOf(up, g), p);
      p := p.(color := Black);
      Up(mem, root, RightOf(up, g), p);
      ghost var g1 := g.(right := p);
      SetColor(gparent, Red, up, g1);
      g1 := g1.(color := Red);
      RotLInorder(g1);
      RotateLeft(gparent, up, g1);
      top := RotL(g1);
    }

    /** One round of RB_INSERT_COLOR when the parent is the grandparent's right child. */
    method InsertFixRight(node: Ptr, parent: Ptr, gparent: Ptr, ghost c: Ctx, ghost t: Tree, ghost h: int)
      returns (elm: Ptr, ghost c': Ctx, ghost t': Tree, ghost h': int)
      requires At(mem, root, c, t) && InsInv(c, t, h) && t.n == node
      requires !c.Top? && c.color == Red && c.n == parent && c.up.InRight? && c.up.n == gparent
      modifies this
      ensures At(mem, root, c', t') && InsInv(c', t', h') && t'.n == elm
      ensures Depth(c') < Depth(c) && Flat(c', t') == Flat(c, t)
      ensures All(c', t') == All(c, t) && mem - All(c, t) == old(mem) - All(c, t)
    {
      ghost var up, p := c.up.up, Plug(c, t);
      Up(mem, root, c, t);
      Up(mem, root, c.up, p);
      ghost var g := Plug(c.up, p);
      WrapStep(c, t);
      WrapStep(c.up, p);
      assert Shape(mem, g, Hole(up)) && Shape(mem, g.left, gparent) && Sep(g.left);
      var uncle := mem[gparent].left;
      if uncle != NULL && mem[uncle].color == Red {
        InsRecolorRight(c, t, h);
        t' := InsertRecolorRight(parent, gparent, uncle, up, g);
        elm, c', h' := gparent, up, h + 1;
      } else {
        InsRotateRight(c, t, h);
        assert Sep(g) && Sep(p);
        assert t.n in Nodes(t) && (c.InLeft? && c.right.Node? ==> c.right.n in Nodes(c.right));
        assert c.InRight? && c.left.Node? ==> c.left.n in Nodes(c.left);
        ghost var top;
        elm, top := InsertRotateRight(node, parent, gparent, up, g, c.InLeft?);
        DownRight(mem, root, up, top);
        WrapStep(RightOf(up, top), top.right);
        c', t', h' := RightOf(up, top), top.right, h;
      }
    }

    /** RB_INSERT_COLOR: restores the rules after a red leaf was linked in. */
    method InsertColor(node: Ptr, ghost c0: Ctx, ghost t0: Tree)
      requires At(mem, root, c0, t0) && InsInv(c0, t0, 0) && t0.n == node
      modifies this
      ensures At(mem, root, Top, tree) && RedBlack(tree) && Inorder(tree) == Flat(c0, t0)
      ensures Nodes(tree) == All(c0, t0) && mem - All(c0, t0) == old(mem) - All(c0, t0)
    {
      var elm := node;
      ghost var c, t, h := c0, t0, 0;
      Links(mem, root, c, t);
      while mem[elm].parent != NULL && mem[mem[elm].parent].color == Red
        invariant At(mem, root, c, t) && InsInv(c, t, h) && t.n == elm
        invariant elm in mem && mem[elm].parent == Hole(c) && (c.Top? <==> Hole(c) == NULL)
        invariant !c.Top? ==> c.n in mem && mem[c.n].color == c.color
        invariant Flat(c, t) == Flat(c0, t0)
        invariant All(c, t) == All(c0, t0) && mem - All(c0, t0) == old(mem) - All(c0, t0)
        decreases Depth(c)
      {
        var parent := mem[elm].parent;
        RedHasUp(c);
        Links(mem, root, c, t);
        Up(mem, root, c, t);
        Links(mem, root, c.up, Plug(c, t));
        var gparent := mem[parent].parent;
        if parent == mem[gparent].left {
          elm, c, t, h := InsertFixLeft(elm, parent, gparent, c, t, h);
        } else {
          elm, c, t, h := InsertFixRight(elm, parent, gparent, c, t, h);
        }
        Links(mem, root, c, t);
      }
      Links(mem, root, c, t);
      if c.Top? {
        PaintAt(mem, root, c, t, Black);
        t, h := t.(color := Black), h + 1;
      } else {
        RootBlack(mem, root, c, t.n);
        assert mem[root := mem[root].(color := Black)] == mem;
      }
      mem := mem[root := mem[root].(color := Black)];
      FillAt(mem, root, c, t);
      FillInorder(c, t);
      FillGood(c, t, h);
      tree := Fill(c, t);
    }

    /** The descent of RB_INSERT: an element with this key, or the free link where it belongs. */
    method Descend(key: int) returns (found: Ptr, parent: Ptr, less: bool, ghost c: Ctx)
      requires Valid()
      ensures found != NULL ==> Ent(found, key) in Inorder(tree)
      ensures found == NULL ==>
        && At(mem, root, c, Nil) && Good(c, Nil, 0) && Hole(c) == parent
        && (c.InLeft? ==> less) && (c.InRight? ==> !less)
        && Bounds(c, key) && Flat(c, Nil) == Inorder(tree) && CtxNodes(c) == Nodes(tree)
    {
      var tmp := root;
      parent, less := NULL, false;
      ghost var t, h: int := tree, 0;
      c := Top;
      h :| Bal(tree, h);
      Links(mem, root, c, t);
      while tmp != NULL
        invariant At(mem, root, c, t) && Root(t) == tmp && Hole(c) == parent && Good(c, t, h)
        invariant t.Node? ==> t.n != NULL
        invariant (c.InLeft? ==> less) && (c.InRight? ==> !less)
        invariant Flat(c, t) == Inorder(tree) && Bounds(c, key) && All(c, t) == Nodes(tree)
        decreases t
      {
        Links(mem, root, c, t);
        DownGood(c, t, h);
        DownBounds(c, t, key);
        parent := tmp;
        if key < mem[parent].key {
          less, tmp := true, mem[tmp].left;
          DownLeft(mem, root, c, t);
          WrapStep(LeftOf(c, t), t.left);
          c, t, h := LeftOf(c, t), t.left, if t.color == Black then h - 1 else h;
        } else if key > mem[parent].key {
          less, tmp := false, mem[tmp].right;
          DownRight(mem, root, c, t);
          WrapStep(RightOf(c, t), t.right);
          c, t, h := RightOf(c, t), t.right, if t.color == Black then h - 1 else h;
        } else {
          FoundHere(c, t);
          return tmp, parent, less, c;
        }
        Links(mem, root, c, t);
      }
      return NULL, parent, less, c;
    }

    /** RB_SET and the link from the parent. */
    method Link(elm: Ptr, parent: Ptr, less: bool, ghost c: Ctx)
      requires At(mem, root, c, Nil) && Hole(c) == parent && (c.InLeft? ==> less) && (c.InRight? ==> !less)
      requires elm != NULL && elm in mem && elm !in CtxNodes(c)
      modifies this`mem, this`root
      ensures var leaf := Node(Red, Nil, elm, old(mem[elm].key), Nil);
        && At(mem, root, c, leaf) && All(c, leaf) == CtxNodes(c) + {elm}
        && mem - All(c, leaf) == old(mem) - All(c, leaf)
    {
      Links(mem, root, c, Nil);
      assert !c.Top? ==> c.n in CtxNodes(c);
      mem := mem[elm := Struct(mem[elm].key, NULL, NULL, parent, Red)];
      if parent != NULL {
        if less {
          mem := mem[parent := mem[parent].(left := elm)];
        } else {
          mem := mem[parent := mem[parent].(right := elm)];
        }
      } else {
        root := elm;
      }
      LinkNew(old(mem), mem, old(root), root, c, elm);
    }

    /**
      RB_INSERT: returns the element already holding the key and changes nothing, or links the
      new element in and returns NULL.
     */
    method Insert(elm: Ptr) returns (found: Ptr)
      requires Valid() && elm != NULL && elm in mem && elm !in Nodes(tree)
      modifies this
      ensures Valid()
      ensures found != NULL ==>
        && Ent(found, old(mem[elm].key)) in old(Contents())
        && mem == old(mem) && tree == old(tree) && root == old(root)
      ensures found == NULL ==>
        && (forall e :: e in old(Contents()) ==> e.key != old(mem[elm].key))
        && Contents() == old(Contents()) + {Ent(elm, old(mem[elm].key))}
        && Nodes(tree) == old(Nodes(tree)) + {elm} && mem - Nodes(tree) == old(mem) - Nodes(tree)
    {
      var key, parent, less := mem[elm].key, NULL, false;
      ghost var c;
      found, parent, less, c := Descend(key);
      if found == NULL {
        InsertContents(c, Ent(elm, key));
        Link(elm, parent, less, c);
        InsertColor(elm, c, Node(Red, Nil, elm, key, Nil));
      }
    }

    /** Neither child of `node` is red. */
    method ChildrenBlack(node: Ptr, ghost c: Ctx, ghost t: Tree) returns (black: bool)
      requires At(mem, root, c, t) && t.Node? && t.n == node
      ensures black <==> ColorOf(t.left) == Black && ColorOf(t.right) == Black
    {
      Links(mem, root, c, t);
      DownLeft(mem, root, c, t);
      Links(mem, root, LeftOf(c, t), t.left);
      DownRight(mem, root, c, t);
      Links(mem, root, RightOf(c, t), t.right);
      black := (mem[node].left == NULL || mem[mem[node].left].color == Black)
            && (mem[node].right == NULL || mem[mem[node].right].color == Black);
    }

    // -- RB_REMOVE_COLOR with the deficient child on the left

    /** Sibling red: rotate it above the parent. */
    method SiblingRedLeft(parent: Ptr, sib: Ptr, ghost up: Ctx, ghost p: Tree) returns (ghost top: Tree)
      requires At(mem, root, up, p) && p.Node? && p.right.Node? && p.n == parent && p.right.n == sib
      modifies this
      ensures top == RedSibLeft(p) && At(mem, root, up, top)
      ensures All(up, top) == All(up, p) && mem - All(up, p) == old(mem) - All(up, p)
    {
      DownRight(mem, root, up, p);
      SetColor(sib, Black, RightOf(up, p), p.right);
      Up(mem, root, RightOf(up, p), p.right.(color := Black));
      ghost var p1 := p.(right := p.right.(color := Black));
      SetColor(parent, Red, up, p1);
      p1 := p1.(color := Red);
      RotateLeft(parent, up, p1);
      top := RotL(p1);
    }

    /** Sibling black with only its inner child red: turn the red child outwards. */
    method SiblingInnerLeft(parent: Ptr, sib: Ptr, ghost up: Ctx, ghost p: Tree) returns (tmp: Ptr, ghost p': Tree)
      requires At(mem, root, up, p) && p.Node? && p.right.Node? && p.n == parent && p.right.n == sib
      requires ColorOf(p.right.right) == Black ==> p.right.left.Node?
      modifies this
      ensures p' == InnerLeft(p) && At(mem, root, up, p') && tmp == p'.right.n
      ensures All(up, p') == All(up, p) && mem - All(up, p) == old(mem) - All(up, p)
    {
      tmp, p' := sib, p;
      ghost var c, s := RightOf(up, p), p.right;
      DownRight(mem, root, up, p);
      Links(mem, root, c, s);
      DownRight(mem, root, c, s);
      Links(mem, root, RightOf(c, s), s.right);
      if mem[sib].right == NULL || mem[mem[sib].right].color == Black {
        var inner := mem[sib].left;
        DownLeft(mem, root, c, s);
        Links(mem, root, LeftOf(c, s), s.left);
        if inner != NULL {
          SetColor(inner, Black, LeftOf(c, s), s.left);
        }
        Up(mem, root, LeftOf(c, s), s.left.(color := Black));
        s := s.(left := s.left.(color := Black));
        SetColor(sib, Red, c, s);
        s := s.(color := Red);
        RotateRight(sib, c, s);
        s := RotR(s);
        Up(mem, root, c, s);
        p' := p.(right := s);
        Links(mem, root, up, p');
        tmp := mem[parent].right;
      }
    }

    /** Sibling black with its outer child red: one rotation pays the debt. */
    method SiblingOuterLeft(parent: Ptr, sib: Ptr, ghost up: Ctx, ghost p: Tree) returns (ghost top: Tree)
      requires At(mem, root, up, p) && p.Node? && p.right.Node? && p.n == parent && p.right.n == sib
      modifies this
      ensures top == OuterLeft(p) && At(mem, root, up, top)
      ensures All(up, top) == All(up, p) && mem - All(up, p) == old(mem) - All(up, p)
    {
      Links(mem, root, up, p);
      ghost var c, s := RightOf(up, p), p.right;
      DownRight(mem, root, up, p);
      SetColor(sib, mem[parent].color, c, s);
      s := s.(color := p.color);
      Up(mem, root, c, s);
      ghost var p1 := p.(right := s);
      SetColor(parent, Black, up, p1);
      p1 := p1.(color := Black);
      c := RightOf(up, p1);
      DownRight(mem, root, up, p1);
      Links(mem, root, c, s);
      DownRight(mem, root, c, s);
      Links(mem, root, RightOf(c, s), s.right);
      if mem[sib].right != NULL {
        SetColor(mem[sib].right, Black, RightOf(c, s), s.right);
      }
      Up(mem, root, RightOf(c, s), Paint(s.right, Black));
      s := s.(right := Paint(s.right, Black));
      Up(mem, root, c, s);
      p1 := p1.(right := s);
      RotateLeft(parent, up, p1);
      top := RotL(p1);
    }

    /** After the red-sibling case: sibling black.  Recolour and move up, or rotate and finish. */
    method RemoveBlackSiblingLeft(parent: Ptr, ghost c: Ctx, ghost t: Tree, ghost h: int)
      returns (done: bool, elm: Ptr, ghost c': Ctx, ghost t': Tree, ghost h': int)
      requires At(mem, root, c, t) && RemInv(c, t, h) && c.InLeft? && c.n == parent
      requires ColorOf(t) == Black && ColorOf(c.right) == Black
      modifies this
      ensures At(mem, root, c', t') && Flat(c', t') == Flat(c, t) && t'.Node? && t'.n == elm
      ensures if done then Good(c', t', h') else RemInv(c', t', h') && c' == c.up && ColorOf(t') == c.color
      ensures All(c', t') == All(c, t) && mem - All(c, t) == old(mem) - All(c, t)
    {
      ghost var up, p := c.up, Plug(c, t);
      SiblingExistsLeft(c, t, h);
      ShiftLeftInorder(p);
      Links(mem, root, c, t);
      WrapStep(c, t);
      Up(mem, root, c, t);
      var tmp := mem[parent].right;
      ghost var cs := RightOf(up, p);
      DownRight(mem, root, up, p);
      Links(mem, root, cs, p.right);
      var black := ChildrenBlack(tmp, cs, p.right);
      if black {
        RemRecolorLeft(c, t, h);
        SetColor(tmp, Red, cs, p.right);
        Up(mem, root, cs, p.right.(color := Red));
        done, elm, c', t', h' := false, parent, up, p.(right := p.right.(color := Red)),
          if c.color == Black then h + 1 else h;
      } else {
        RemOuterLeft(c, t, h);
        tmp, p := SiblingInnerLeft(parent, tmp, up, p);
        ShiftLeftInorder(p);
        ghost var top := SiblingOuterLeft(parent, tmp, up, p);
        done, elm, c', t', h' := true, tmp, up, top, if c.color == Black then h + 2 else h + 1;
      }
    }

    /** One round of RB_REMOVE_COLOR when the deficient child is on the left. */
    method RemoveFixLeft(parent: Ptr, ghost c: Ctx, ghost t: Tree, ghost h: int)
      returns (done: bool, elm: Ptr, ghost c': Ctx, ghost t': Tree, ghost h': int)
      requires At(mem, root, c, t) && RemInv(c, t, h) && c.InLeft? && c.n == parent && ColorOf(t) == Black
      modifies this
      ensures At(mem, root, c', t') && Flat(c', t') == Flat(c, t) && t'.Node? && t'.n == elm
      ensures if done then Good(c', t', h') else RemInv(c', t', h') && Measure(c', t') < Measure(c, t)
      ensures All(c', t') == All(c, t) && mem - All(c, t) == old(mem) - All(c, t)
    {
      SiblingExistsLeft(c, t, h);
      Links(mem, root, c, t);
      Up(mem, root, c, t);
      ghost var up, p, c1 := c.up, Plug(c, t), c;
      WrapStep(c, t);
      DownRight(mem, root, up, p);
      Links(mem, root, RightOf(up, p), p.right);
      var tmp := mem[parent].right;
      if mem[tmp].color == Red {
        RemRedSibLeft(c, t, h);
        ShiftLeftInorder(p);
        ghost var top := SiblingRedLeft(parent, tmp, up, p);
        DownLeft(mem, root, up, top);
        WrapStep(LeftOf(up, top), top.left);
        DownLeft(mem, root, LeftOf(up, top), top.left);
        c1 := LeftOf(LeftOf(up, top), top.left);
        WrapStep(c1, t);
      }
      done, elm, c', t', h' := RemoveBlackSiblingLeft(parent, c1, t, h);
    }

    // -- RB_REMOVE_COLOR with the deficient child on the right

    /** Sibling red: rotate it above the parent. */
    method SiblingRedRight(parent: Ptr, sib: Ptr, ghost up: Ctx, ghost p: Tree) returns (ghost top: Tree)
      requires At(mem, root, up, p) && p.Node? && p.left.Node? && p.n == parent && p.left.n == sib
      modifies this
      ensures top == RedSibRight(p) && At(mem, root, up, top)
      ensures All(up, top) == All(up, p) && mem - All(up, p) == old(mem) - All(up, p)
    {
      DownLeft(mem, root, up, p);
      SetColor(sib, Black, LeftOf(up, p), p.left);
      Up(mem, root, LeftOf(up, p), p.left.(color := Black));
      ghost var p1 := p.(left := p.left.(color := Black));
      SetColor(parent, Red, up, p1);
      p1 := p1.(color := Red);
      RotateRight(parent, up, p1);
      top := RotR(p1);
    }

    /** Sibling black with only its inner child red: turn the red child outwards. */
    method SiblingInnerRight(parent: Ptr, sib: Ptr, ghost up: Ctx, ghost p: Tree) returns (tmp: Ptr, ghost p': Tree)
      requires At(mem, root, up, p) && p.Node? && p.left.Node? && p.n == parent && p.left.n == sib
      requires ColorOf(p.left.left) == Black ==> p.left.right.Node?
      modifies this
      ensures p' == InnerRight(p) && At(mem, root, up, p') && tmp == p'.left.n
      ensures All(up, p') == All(up, p) && mem - All(up, p) == old(mem) - All(up, p)
    {
      tmp, p' := sib, p;
      ghost var c, s := LeftOf(up, p), p.left;
      DownLeft(mem, root, up, p);
      Links(mem, root, c, s);
      DownLeft(mem, root, c, s);
      Links(mem, root, LeftOf(c, s), s.left);
      if mem[sib].left == NULL || mem[mem[sib].left].color == Black {
        var inner := mem[sib].right;
        DownRight(mem, root, c, s);
        Links(mem, root, RightOf(c, s), s.right);
        if inner != NULL {
          SetColor(inner, Black, RightOf(c, s), s.right);
        }
        Up(mem, root, RightOf(c, s), s.right.(color := Black));
        s := s.(right := s.right.(color := Black));
        SetColor(sib, Red, c, s);
        s := s.(color := Red);
        RotateLeft(sib, c, s);
        s := RotL(s);
        Up(mem, root, c, s);
        p' := p.(left := s);
        Links(mem, root, up, p');
        tmp := mem[parent].left;
      }
    }

    /** Sibling black with its outer child red: one rotation pays the debt. */
    method SiblingOuterRight(parent: Ptr, sib: Ptr, ghost up: Ctx, ghost p: Tree) returns (ghost top: Tree)
      requires At(mem, root, up, p) && p.Node? && p.left.Node? && p.n == parent && p.left.n == sib
      modifies this
      ensures top == OuterRight(p) && At(mem, root, up, top)
      ensures All(up, top) == All(up, p) && mem - All(up, p) == old(mem) - All(up, p)
    {
      Links(mem, root, up, p);
      ghost var c, s := LeftOf(up, p), p.left;
      DownLeft(mem, root, up, p);
      SetColor(sib, mem[parent].color, c, s);
      s := s.(color := p.color);
      Up(mem, root, c, s);
      ghost var p1 := p.(left := s);
      SetColor(parent, Black, up, p1);
      p1 := p1.(color := Black);
      c := LeftOf(up, p1);
      DownLeft(mem, root, up, p1);
      Links(mem, root, c, s);
      DownLeft(mem, root, c, s);
      Links(mem, root, LeftOf(c, s), s.left);
      if mem[sib].left != NULL {
        SetColor(mem[sib].left, Black, LeftOf(c, s), s.left);
      }
      Up(mem, root, LeftOf(c, s), Paint(s.left, Black));
      s := s.(left := Paint(s.left, Black));
      Up(mem, root, c, s);
      p1 := p1.(left := s);
      RotateRight(parent, up, p1);
      top := RotR(p1);
    }

    /** After the red-sibling case: sibling black.  Recolour and move up, or rotate and finish. */
    method RemoveBlackSiblingRight(parent: Ptr, ghost c: Ctx, ghost t: Tree, ghost h: int)
      returns (done: bool, elm: Ptr, ghost c': Ctx, ghost t': Tree, ghost h': int)
      requires At(mem, root, c, t) && RemInv(c, t, h) && c.InRight? && c.n == parent
      requires ColorOf(t) == Black && ColorOf(c.left) == Black
      modifies this
      ensures At(mem, root, c', t') && Flat(c', t') == Flat(c, t) && t'.Node? && t'.n == elm
      ensures if done then Good(c', t', h') else RemInv(c', t', h') && c' == c.up && ColorOf(t') == c.color
      ensures All(c', t') == All(c, t) && mem - All(c, t) == old(mem) - All(c, t)
    {
      ghost var up, p := c.up, Plug(c, t);
      SiblingExistsRight(c, t, h);
      ShiftRightInorder(p);
      Links(mem, root, c, t);
      WrapStep(c, t);
      Up(mem, root, c, t);
      var tmp := mem[parent].left;
      ghost var cs := LeftOf(up, p);
      DownLeft(mem, root, up, p);
      Links(mem, root, cs, p.left);
      var black := ChildrenBlack(tmp, cs, p.left);
      if black {
        RemRecolorRight(c, t, h);
        SetColor(tmp, Red, cs, p.left);
        Up(mem, root, cs, p.left.(color := Red));
        done, elm, c', t', h' := false, parent, up, p.(left := p.left.(color := Red)),
          if c.color == Black then h + 1 else h;
      } else {
        RemOuterRight(c, t, h);
        tmp, p := SiblingInnerRight(parent, tmp, up, p);
        ShiftRightInorder(p);
        ghost var top := SiblingOuterRight(parent, tmp, up, p);
        done, elm, c', t', h' := true, tmp, up, top, if c.color == Black then h + 2 else h + 1;
      }
    }

    /** One round of RB_REMOVE_COLOR when the deficient child is on the right. */
    method RemoveFixRight(parent: Ptr, ghost c: Ctx, ghost t: Tree, ghost h: int)
      returns (done: bool, elm: Ptr, ghost c': Ctx, ghost t': Tree, ghost h': int)
      requires At(mem, root, c, t) && RemInv(c, t, h) && c.InRight? && c.n == parent && ColorOf(t) == Black
      modifies this
      ensures At(mem, root, c', t') && Flat(c', t') == Flat(c, t) && t'.Node? && t'.n == elm
      ensures if done then Good(c', t', h') else RemInv(c', t', h') && Measure(c', t') < Measure(c, t)
      ensures All(c', t') == All(c, t) && mem - All(c, t) == old(mem) - All(c, t)
    {
      SiblingExistsRight(c, t, h);
      Links(mem, root, c, t);
      Up(mem, root, c, t);
      ghost var up, p, c1 := c.up, Plug(c, t), c;
      WrapStep(c, t);
      DownLeft(mem, root, up, p);
      Links(mem, root, LeftOf(up, p), p.left);
      var tmp := mem[parent].left;
      if mem[tmp].color == Red {
        RemRedSibRight(c, t, h);
        ShiftRightInorder(p);
        ghost var top := SiblingRedRight(parent, tmp, up, p);
        DownRight(mem, root, up, top);
        WrapStep(RightOf(up, top), top.right);
        DownRight(mem, root, RightOf(up, top), top.right);
        c1 := RightOf(RightOf(up, top), top.right);
        WrapStep(c1, t);
      }
      done, elm, c', t', h' := RemoveBlackSiblingRight(parent, c1, t, h);
    }

    /** RB_REMOVE_COLOR: pays back the black level missing below t0. */
    method RemoveColor(parent0: Ptr, elm0: Ptr, ghost c0: Ctx, ghost t0: Tree, ghost h0: int)
      requires At(mem, root, c0, t0) && RemInv(c0, t0, h0) && Root(t0) == elm0 && Hole(c0) == parent0
      modifies this
      ensures At(mem, root, Top, tree) && RedBlack(tree) && Inorder(tree) == Flat(c0, t0)
      ensures Nodes(tree) == All(c0, t0) && mem - All(c0, t0) == old(mem) - All(c0, t0)
    {
      var elm, parent, done := elm0, parent0, false;
      ghost var c, t, h := c0, t0, h0;
      Links(mem, root, c, t);
      while !done && (elm == NULL || mem[elm].color == Black) && elm != root
        invariant At(mem, root, c, t) && Root(t) == elm && (elm != NULL ==> elm in mem && mem[elm].color == t.color)
        invariant t.Node? <==> elm != NULL
        invariant if done then Good(c, t, h) else RemInv(c, t, h) && Hole(c) == parent
        invariant Flat(c, t) == Flat(c0, t0)
        invariant All(c, t) == All(c0, t0) && mem - All(c0, t0) == old(mem) - All(c0, t0)
        decreases !done, Measure(c, t)
      {
        Links(mem, root, c, t);
        if c.InRight? {
          SiblingExistsRight(c, t, h);
          Up(mem, root, c, t);
          DownLeft(mem, root, c.up, Plug(c, t));
          Links(mem, root, LeftOf(c.up, Plug(c, t)), c.left);
        }
        if mem[parent].left == elm {
          done, elm, c, t, h := RemoveFixLeft(parent, c, t, h);
        } else {
          done, elm, c, t, h := RemoveFixRight(parent, c, t, h);
        }
        Links(mem, root, c, t);
        parent := mem[elm].parent;
      }
      CloseRemoval(if done then root else elm, done, c, t, h);
    }

    /** The last line of RB_REMOVE_COLOR; after the final rotation it is applied to the root. */
    method CloseRemoval(elm: Ptr, done: bool, ghost c: Ctx, ghost t: Tree, ghost h: int)
      requires At(mem, root, c, t) && (if done then Good(c, t, h) && elm == root else RemInv(c, t, h) && elm == Root(t))
      requires !done ==> ColorOf(t) == Red || elm == root
      modifies this
      ensures At(mem, root, Top, tree) && RedBlack(tree) && Inorder(tree) == Flat(c, t)
      ensures Nodes(tree) == All(c, t) && mem - All(c, t) == old(mem) - All(c, t)
    {
      Links(mem, root, c, t);
      ghost var t1 := t;
      if !c.Top? && TopBlack(c) {
        RootBlack(mem, root, c, Root(t));
      }
      assert t.Node? ==> t.n in Nodes(t);
      if elm != NULL {
        if done || ColorOf(t) == Black {
          assert mem[elm := mem[elm].(color := Black)] == mem;
        } else {
          PaintAt(mem, root, c, t, Black);
          t1 := Paint(t, Black);
        }
        mem := mem[elm := mem[elm].(color := Black)];
      }
      assert Inorder(t1) == Inorder(t);
      if !done {
        RemDone(c, t, h);
        FillGood(c, t1, if ColorOf(t) == Red then h + 1 else h);
      } else {
        FillGood(c, t1, h);
      }
      FillAt(mem, root, c, t1);
      FillInorder(c, t1);
      tree := Fill(c, t1);
    }

    /** Unlinks `node`, which has at most the one child given. */
    method Splice(node: Ptr, child: Ptr, ghost c: Ctx, ghost t: Tree, ghost ct: Tree)
      requires At(mem, root, c, t) && t.Node? && t.n == node && Root(ct) == child
      requires (ct == t.left && t.right.Nil?) || (ct == t.right && t.left.Nil?)
      modifies this`mem, this`root
      ensures At(mem, root, c, ct) && All(c, ct) == All(c, t) - {node}
      ensures mem - All(c, t) == old(mem) - All(c, t)
      ensures node in mem && mem[node] == old(mem[node])
    {
      Links(mem, root, c, t);
      assert node in Nodes(t) && Sep(ct) && Shape(mem, ct, node);
      assert ct.Node? ==> ct.n in Nodes(ct);
      assert !c.Top? ==> c.n in CtxNodes(c);
      var parent := mem[node].parent;
      if child != NULL {
        mem := mem[child := mem[child].(parent := parent)];
      }
      if parent != NULL {
        if mem[parent].left == node {
          mem := mem[parent := mem[parent].(left := child)];
        } else {
          mem := mem[parent := mem[parent].(right := child)];
        }
      } else {
        root := child;
      }
      SpliceOut(old(mem), mem, old(root), root, c, t, ct);
    }

    /** The children of `node` become children of `succ`. */
    method AdoptChildren(node: Ptr, succ: Ptr, ghost m0: Memory, ghost root0: Ptr, ghost c: Ctx, ghost t: Tree)
      requires At(m0, root0, c, t) && t.Node? && t.n == node && t.left.Node?
      requires succ != NULL && succ in mem && succ !in All(c, t) && m0.Keys == mem.Keys && node in mem
      requires Same(m0, mem, Nodes(t)) && mem[succ] == m0[node].(key := mem[succ].key) && CtxShape(mem, root, c, succ)
      modifies this`mem
      ensures var t' := t.(n := succ, key := old(mem[succ].key));
        At(mem, root, c, t') && All(c, t') == All(c, t) - {node} + {succ}
      ensures mem.Keys == old(mem.Keys) && Same(old(mem), mem, mem.Keys - All(c, t))
    {
      Links(m0, root0, c, t);
      Neighbours(m0, root0, c, t);
      mem := mem[mem[node].left := mem[mem[node].left].(parent := succ)];
      if mem[node].right != NULL {
        mem := mem[mem[node].right := mem[mem[node].right].(parent := succ)];
      }
      assert CtxShape(mem, root, c, succ) by {
        SameCtx(old(mem), mem, root, c, succ);
      }
      ReplaceRoot(m0, mem, root, c, t, succ, old(mem[succ].key));
    }

    /** Copies the links and colour of `node` to `succ` and points its neighbours at `succ`. */
    method Replace(node: Ptr, succ: Ptr, ghost c: Ctx, ghost t: Tree)
      requires At(mem, root, c, t) && t.Node? && t.n == node && t.left.Node?
      requires succ != NULL && succ in mem && succ !in All(c, t)
      modifies this`mem, this`root
      ensures var t' := t.(n := succ, key := old(mem[succ].key));
        At(mem, root, c, t') && All(c, t') == All(c, t) - {node} + {succ}
      ensures mem - (All(c, t) + {succ}) == old(mem) - (All(c, t) + {succ})
    {
      Links(mem, root, c, t);
      Neighbours(mem, root, c, t);
      mem := mem[succ := mem[node].(key := mem[succ].key)];
      assert CtxShape(mem, root, c, node) by {
        SameCtx(old(mem), mem, root, c, node);
      }
      Relink(node, succ, c);
      AdoptChildren(node, succ, old(mem), old(root), c, t);
      RestSame(old(mem), mem, All(c, t) + {succ});
    }

    /** The leftmost node of the right subtree, with its path. */
    method Successor(node: Ptr, ghost c: Ctx, ghost t: Tree, ghost h: int)
      returns (succ: Ptr, ghost inner: Ctx, ghost s: Tree, ghost hs: int)
      requires At(mem, root, c, t) && Good(c, t, h) && t.Node? && t.n == node && t.right.Node?
      ensures Spine(inner) && s.Node? && s.left.Nil? && s.n == succ && t.right == Fill(inner, s)
      ensures At(mem, root, Append(inner, RightOf(c, t)), s) && Good(Append(inner, RightOf(c, t)), s, hs)
      ensures All(Append(inner, RightOf(c, t)), s) == All(c, t)
    {
      ghost var o := RightOf(c, t);
      Links(mem, root, c, t);
      DownRight(mem, root, c, t);
      DownGood(c, t, h);
      succ := mem[node].right;
      inner, s, hs := Top, t.right, if t.color == Black then h - 1 else h;
      Links(mem, root, o, s);
      while mem[succ].left != NULL
        invariant Spine(inner) && s.Node? && s.n == succ && t.right == Fill(inner, s)
        invariant At(mem, root, Append(inner, o), s) && Good(Append(inner, o), s, hs)
        invariant All(Append(inner, o), s) == All(c, t)
        invariant succ in mem && mem[succ].left == Root(s.left)
        decreases s
      {
        DownLeft(mem, root, Append(inner, o), s);
        DownGood(Append(inner, o), s, hs);
        succ := mem[succ].left;
        inner, s, hs := LeftOf(inner, s), s.left, if s.color == Black then hs - 1 else hs;
        Links(mem, root, Append(inner, o), s);
      }
      DownLeft(mem, root, Append(inner, o), s);
      Links(mem, root, LeftOf(Append(inner, o), s), s.left);
    }

    /** The end of RB_REMOVE: a removed black node leaves a debt to pay. */
    method Settle(color: Color, parent: Ptr, child: Ptr, ghost c: Ctx, ghost t: Tree, ghost h: int)
      requires At(mem, root, c, t) && Root(t) == child && Hole(c) == parent
      requires if color == Red then Good(c, t, h) else RemInv(c, t, h - 1)
      modifies this
      ensures At(mem, root, Top, tree) && RedBlack(tree) && Inorder(tree) == Flat(c, t)
      ensures Nodes(tree) == All(c, t) && mem - All(c, t) == old(mem) - All(c, t)
    {
      if color == Black {
        RemoveColor(parent, child, c, t, h - 1);
      } else {
        FillAt(mem, root, c, t);
        FillInorder(c, t);
        FillGood(c, t, h);
        tree := Fill(c, t);
      }
    }

    /** RB_REMOVE of a node with at most one child. */
    method RemoveSimple(node: Ptr, child: Ptr, ghost c: Ctx, ghost t: Tree, ghost ct: Tree, ghost h: int)
      requires At(mem, root, c, t) && Good(c, t, h) && t.Node? && t.n == node && Root(ct) == child
      requires (ct == t.left && t.right.Nil?) || (ct == t.right && t.left.Nil?)
      requires Sorted(Flat(c, t))
      modifies this
      ensures At(mem, root, Top, tree) && RedBlack(tree) && Sorted(Inorder(tree))
      ensures forall e :: e in Inorder(tree) <==> e in Flat(c, t) && e != Ent(t.n, t.key)
      ensures Nodes(tree) == All(c, t) - {node} && mem - All(c, t) == old(mem) - All(c, t)
    {
      Links(mem, root, c, t);
      var parent, color := mem[node].parent, mem[node].color;
      SpliceOrder(c, t, ct);
      SpliceGood(c, t, ct, h);
      Splice(node, child, c, t, ct);
      ghost var m1 := mem;
      Settle(color, parent, child, c, ct, h);
      RestWider(m1, mem, All(c, ct), All(c, t));
    }

    /** Unlinks the successor of `node`, which has two children, and puts it in the place of `node`. */
    method Transplant(node: Ptr, ghost c: Ctx, ghost t: Tree, ghost h: int)
      returns (color: Color, parent: Ptr, child: Ptr, ghost t': Tree, ghost inner: Ctx, ghost s: Tree, ghost hs: int)
      requires At(mem, root, c, t) && Good(c, t, h) && t.Node? && t.n == node && t.left.Node? && t.right.Node?
      modifies this`mem, this`root
      ensures Spine(inner) && s.Node? && s.left.Nil? && t.right == Fill(inner, s) && s.n in All(c, t) - {node}
      ensures t' == t.(n := s.n, key := s.key, right := Fill(inner, s.right)) && All(c, t') == All(c, t) - {node}
      ensures At(mem, root, c, t') && child == Root(s.right) && color == s.color
      ensures Good(Append(inner, RightOf(c, t)), s, hs)
      ensures parent == Hole(Append(inner, RightOf(c, t')))
      ensures mem - All(c, t) == old(mem) - All(c, t)
    {
      var succ;
      succ, inner, s, hs := Successor(node, c, t, h);
      ghost var o, p := RightOf(c, t), Append(inner, RightOf(c, t));
      Links(mem, root, p, s);
      Separate(mem, root, inner, c, t, s);
      child, parent, color := mem[succ].right, mem[succ].parent, mem[succ].color;
      Splice(succ, child, p, s, s.right);
      ghost var m1, t1 := mem, t.(right := Fill(inner, s.right));
      assert At(mem, root, c, t1) && All(c, t1) == All(c, t) - {succ} by {
        AppendUp(mem, root, inner, o, s.right);
        Up(mem, root, o, Fill(inner, s.right));
      }
      if mem[succ].parent == node {
        parent := succ;
      }
      Replace(node, succ, c, t1);
      t' := t1.(n := succ, key := s.key);
      RestWider(m1, mem, All(c, t1) + {succ}, All(c, t));
    }

    /** RB_REMOVE of a node with two children: its successor takes its place. */
    method RemoveInner(node: Ptr, ghost c: Ctx, ghost t: Tree, ghost h: int)
      requires At(mem, root, c, t) && Good(c, t, h) && t.Node? && t.n == node && t.left.Node? && t.right.Node?
      requires Sorted(Flat(c, t))
      modifies this
      ensures At(mem, root, Top, tree) && RedBlack(tree) && Sorted(Inorder(tree))
      ensures forall e :: e in Inorder(tree) <==> e in Flat(c, t) && e != Ent(t.n, t.key)
      ensures Nodes(tree) == All(c, t) - {node} && mem - All(c, t) == old(mem) - All(c, t)
    {
      var color, parent, child;
      ghost var t', inner, s, hs;
      color, parent, child, t', inner, s, hs := Transplant(node, c, t, h);
      SuccessorContents(c, t, inner, s);
      ghost var o, o', m1 := RightOf(c, t), RightOf(c, t'), mem;
      SpliceGood(Append(inner, o), s, s.right, hs);
      AppendRenamed(inner, o, o', hs, ColorOf(s.right));
      AppendRenamed(inner, o, o', hs, Black);
      DownRight(mem, root, c, t');
      AppendDown(mem, root, inner, o', s.right);
      AppendFlat(inner, o', s.right);
      WrapStep(o', Fill(inner, s.right));
      Settle(color, parent, child, Append(inner, o'), s.right, hs);
      RestWider(m1, mem, All(Append(inner, o'), s.right), All(c, t));
    }

    /** RB_REMOVE */
    method Remove(node: Ptr) returns (removed: Ptr)
      requires Valid() && node in Nodes(tree) && node in mem
      modifies this
      ensures Valid() && removed == node
      ensures Ent(node, old(mem[node].key)) in old(Contents())
      ensures Contents() == old(Contents()) - {Ent(node, old(mem[node].key))}
      ensures Nodes(tree) == old(Nodes(tree)) - {node}
      ensures mem - old(Nodes(tree)) == old(mem) - old(Nodes(tree))
    {
      ghost var h0: int :| Bal(tree, h0);
      ghost var c, t, h := Locate(mem, root, Top, tree, h0, node);
      assert All(Top, tree) == Nodes(tree);
      Links(mem, root, c, t);
      FoundHere(c, t);
      DownLeft(mem, root, c, t);
      Links(mem, root, LeftOf(c, t), t.left);
      DownRight(mem, root, c, t);
      Links(mem, root, RightOf(c, t), t.right);
      if mem[node].left == NULL {
        RemoveSimple(node, mem[node].right, c, t, t.right, h);
      } else if mem[node].right == NULL {
        RemoveSimple(node, mem[node].left, c, t, t.left, h);
      } else {
        RemoveInner(node, c, t, h);
      }
      return node;
    }

    /** RB_NFIND: the first element whose key is at least `key`. */
    method NFind(key: int) returns (res: Ptr)
      requires Valid()
      ensures IsFirstAtLeast(Inorder(tree), key, res)
    {
      var tmp := root;
      res := NULL;
      ghost var c, t := Top, tree;
      Links(mem, root, c, t);
      while tmp != NULL
        invariant At(mem, root, c, t) && Root(t) == tmp && (t.Node? ==> tmp != NULL)
        invariant Flat(c, t) == Inorder(tree) && Bounds(c, key) && res == First(After(c))
        invariant res == NULL ==> After(c) == []
        decreases t
      {
        Links(mem, root, c, t);
        DownBounds(c, t, key);
        if key < mem[tmp].key {
          res, tmp := tmp, mem[tmp].left;
          DownLeft(mem, root, c, t);
          WrapStep(LeftOf(c, t), t.left);
          c, t := LeftOf(c, t), t.left;
        } else if key > mem[tmp].key {
          tmp := mem[tmp].right;
          DownRight(mem, root, c, t);
          WrapStep(RightOf(c, t), t.right);
          c, t := RightOf(c, t), t.right;
        } else {
          AtLeastHere(c, t);
          return tmp;
        }
        Links(mem, root, c, t);
      }
      AtLeastEnd(c, key);
    }

    /** RB_NEXT: the element that follows in key order, through right and parent links. */
    method Next(node: Ptr) returns (elm: Ptr)
      requires Valid() && node in Nodes(tree)
      ensures IsNext(Inorder(tree), node, elm)
    {
      ghost var h0: int :| Bal(tree, h0);
      ghost var c0, t0, h := Locate(mem, root, Top, tree, h0, node);
      Links(mem, root, c0, t0);
      elm := node;
      if mem[node].right != NULL {
        elm := LeftmostOfRight(node, c0, t0);
        assert elm == First(Following(c0, t0)) by {
          DownRight(mem, root, c0, t0);
          Links(mem, root, RightOf(c0, t0), t0.right);
          LeftmostFirst(t0.right);
        }
      } else {
        DownRight(mem, root, c0, t0);
        Links(mem, root, RightOf(c0, t0), t0.right);
        elm := ClimbRight(node, c0, t0);
        assert Following(c0, t0) == After(c0);
      }
      NextIs(c0, t0);
    }

    method LeftmostOfRight(node: Ptr, ghost c: Ctx, ghost t: Tree) returns (elm: Ptr)
      requires At(mem, root, c, t) && t.Node? && t.n == node && t.right.Node?
      ensures elm == First(Inorder(t.right))
    {
      Links(mem, root, c, t);
      DownRight(mem, root, c, t);
      elm := mem[node].right;
      ghost var p, s := RightOf(c, t), t.right;
      Links(mem, root, p, s);
      while mem[elm].left != NULL
        invariant At(mem, root, p, s) && s.Node? && s.n == elm && elm in mem && mem[elm].left == Root(s.left)
        invariant First(Inorder(s)) == First(Inorder(t.right))
        decreases s
      {
        LeftmostFirst(s);
        DownLeft(mem, root, p, s);
        elm := mem[elm].left;
        p, s := LeftOf(p, s), s.left;
        Links(mem, root, p, s);
      }
      DownLeft(mem, root, p, s);
      Links(mem, root, LeftOf(p, s), s.left);
      LeftmostFirst(s);
    }

    /** Up over every right link, then one more: the first ancestor reached from its left. */
    method ClimbRight(node: Ptr, ghost c0: Ctx, ghost t0: Tree) returns (elm: Ptr)
      requires At(mem, root, c0, t0) && t0.Node? && t0.n == node
      ensures elm == First(After(c0))
    {
      elm := node;
      ghost var c, t := c0, t0;
      Links(mem, root, c, t);
      while mem[elm].parent != NULL && elm == mem[mem[elm].parent].right
        invariant At(mem, root, c, t) && t.Node? && t.n == elm && After(c) == After(c0)
        invariant elm in mem && mem[elm].parent == Hole(c) && (c.Top? <==> Hole(c) == NULL)
        invariant !c.Top? ==> c.n in mem && (c.InRight? <==> mem[c.n].right == elm)
        decreases Depth(c)
      {
        elm := mem[elm].parent;
        Up(mem, root, c, t);
        c, t := c.up, Plug(c, t);
        Links(mem, root, c, t);
      }
      elm := mem[elm].parent;
    }
  }

  /** The successor is another node than t's root, and inside t. */
  lemma Separate(m: Memory, root: Ptr, inner: Ctx, c: Ctx, t: Tree, s: Tree)
    requires t.Node? && s.Node? && At(m, root, c, t) && At(m, root, Append(inner, RightOf(c, t)), s)
    requires All(Append(inner, RightOf(c, t)), s) == All(c, t)
    ensures s.n in All(c, t) && s.n != t.n
    ensures m[s.n].parent == if inner.Top? then t.n else inner.n
    ensures inner.Top? || inner.n != t.n
  {
    assert s.n in Nodes(s);
    InCtx(inner, RightOf(c, t));
    if !inner.Top? {
      InCtx(inner.up, RightOf(c, t));
    }
  }

  lemma {:induction false} InCtx(inner: Ctx, outer: Ctx)
    requires !outer.Top?
    ensures outer.n in CtxNodes(Append(inner, outer))
    decreases inner
  {
    if !inner.Top? {
      InCtx(inner.up, outer);
    }
  }

  lemma RestWider(m: Memory, m': Memory, ns: set<Ptr>, wider: set<Ptr>)
    requires m - ns == m' - ns && ns <= wider
    ensures m - wider == m' - wider
  {
    assert m - wider == (m - ns) - wider;
  }

  lemma FoundHere(c: Ctx, t: Tree)
    requires t.Node?
    ensures Ent(t.n, t.key) in Flat(c, t)
  {
    WrapSplit(c, Inorder(t));
  }
}
