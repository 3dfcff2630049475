/** SPLAY, SPLAY_INSERT and SPLAY_REMOVE of sys-tree.h, as they rewire the nodes. */
module SplayTree {
  import opened SplayModel
  import opened SplayCost

  class Head {
    var mem: Memory
    var root: Ptr  // sph_root
    ghost var tree: Tree

    ghost predicate Valid()
      reads this
    {
      && NODE !in mem && root == Root(tree) && Sep(tree) && Shape(mem, tree)
      && Sorted(Inorder(tree))
    }

    ghost function Contents(): set<Ent>
      reads this
    {
      set e | e in Inorder(tree)
    }

    constructor (mem: Memory)
      requires NODE !in mem
      ensures Valid() && this.mem == mem && Contents() == {}
    {
      this.mem, root, tree := mem, NULL, Nil;
    }

    /** The loop of SPLAY between setting up __node and SPLAY_ASSEMBLE. */
    method Descend(key: int, ghost t0: Tree)
      returns (left: Ptr, right: Ptr, ghost lp: LPath, ghost t: Tree, ghost rp: RPath, ghost rounds: nat)
      requires Inv(mem, LTop, t0, RTop) && root == t0.n && Sorted(Inorder(t0))
      modifies this`mem, this`root
      ensures Inv(mem, lp, t, rp) && root == t.n && left == LTip(lp) && right == RTip(rp)
      ensures Flat(lp, t, rp) == Inorder(t0) && All(lp, t, rp) == Nodes(t0)
      ensures AllBelow(LOrder(lp), key) && AllAbove(ROrder(rp), key)
      ensures (key < t.key ==> t.left.Nil?) && (key > t.key ==> t.right.Nil?)
      ensures Assembled(lp, t, rp) == Top(t0, key) && rounds == Rounds(t0, key)
      ensures mem - (Nodes(t0) + {NODE}) == old(mem) - (Nodes(t0) + {NODE})
    {
      left, right := NODE, NODE;
      lp, t, rp, rounds := LTop, t0, RTop, 0;
      var done := false;
      assert Flat(LTop, t0, RTop) == Inorder(t0);
      AtRoot(mem, lp, t, rp);
      while !done && mem[root].key != key
        invariant Inv(mem, lp, t, rp) && root == t.n
        invariant left == LTip(lp) && right == RTip(rp)
        invariant Flat(lp, t, rp) == Inorder(t0) && All(lp, t, rp) == Nodes(t0)
        invariant AllBelow(LOrder(lp), key) && AllAbove(ROrder(rp), key)
        invariant done ==> (key < t.key ==> t.left.Nil?) && (key > t.key ==> t.right.Nil?)
        invariant Assembled(lp, if done then t else Top(t, key), rp) == Top(t0, key)
        invariant rounds + (if done then 0 else Rounds(t, key)) == Rounds(t0, key)
        invariant mem - (Nodes(t0) + {NODE}) == old(mem) - (Nodes(t0) + {NODE})
        decreases !done, Size(t)
      {
        AtRoot(mem, lp, t, rp);
        if key < mem[root].key {
          done, right, t, rp := StepLeft(key, right, lp, t, rp);
        } else {
          done, left, lp, t := StepRight(key, left, lp, t, rp);
        }
        rounds := rounds + 1;
      }
    }

    /** SPLAY_ROTATE_RIGHT */
    method RotateRightRoot(tmp: Ptr, ghost lp: LPath, ghost t: Tree, ghost rp: RPath)
      requires Inv(mem, lp, t, rp) && root == t.n && t.left.Node? && tmp == t.left.n
      modifies this`mem, this`root
      ensures Inv(mem, lp, RotR(t), rp) && root == tmp
      ensures Inorder(RotR(t)) == Inorder(t) && All(lp, RotR(t), rp) == All(lp, t, rp)
      ensures mem - (All(lp, t, rp) + {NODE}) == old(mem) - (All(lp, t, rp) + {NODE})
    {
      RotateRight(mem, lp, t, rp);
      RotROrder(t);
      RotRShape(mem, t);
      ghost var ns := All(lp, t, rp) + {NODE};
      FrameUpdate(mem, root, mem[root].(left := mem[tmp].right), ns);
      mem := mem[root := mem[root].(left := mem[tmp].right)];
      FrameUpdate(mem, tmp, mem[tmp].(right := root), ns);
      mem := mem[tmp := mem[tmp].(right := root)];
      root := tmp;
    }

    /** SPLAY_LINKLEFT */
    method LinkLeftRoot(right: Ptr, ghost lp: LPath, ghost t: Tree, ghost rp: RPath) returns (right': Ptr)
      requires Inv(mem, lp, t, rp) && root == t.n && right == RTip(rp) && t.left.Node?
      modifies this`mem, this`root
      ensures Inv(mem, lp, t.left, RNode(rp, t.n, t.key, t.right)) && root == t.left.n && right' == t.n
      ensures Flat(lp, t.left, RNode(rp, t.n, t.key, t.right)) == Flat(lp, t, rp)
      ensures All(lp, t.left, RNode(rp, t.n, t.key, t.right)) == All(lp, t, rp)
      ensures mem - (All(lp, t, rp) + {NODE}) == old(mem) - (All(lp, t, rp) + {NODE})
    {
      LinkLeft(mem, lp, t, rp);
      LinkLeftOrder(lp, t, rp);
      AtRoot(mem, lp, t, rp);
      mem := mem[right := mem[right].(left := root)];
      right' := root;
      AtRoot(old(mem), lp, t, rp);
      root := mem[root].left;
    }

    /** One round with the key to the left of the root. */
    method StepLeft(key: int, right: Ptr, ghost lp: LPath, ghost t: Tree, ghost rp: RPath)
      returns (done: bool, right': Ptr, ghost t': Tree, ghost rp': RPath)
      requires Inv(mem, lp, t, rp) && root == t.n && right == RTip(rp) && key < t.key
      requires Sorted(Flat(lp, t, rp)) && AllAbove(ROrder(rp), key)
      modifies this`mem, this`root
      ensures Inv(mem, lp, t', rp') && root == t'.n && right' == RTip(rp')
      ensures Flat(lp, t', rp') == Flat(lp, t, rp) && All(lp, t', rp') == All(lp, t, rp) && AllAbove(ROrder(rp'), key)
      ensures if done then key < t'.key && t'.left.Nil? else Size(t') < Size(t)
      ensures if done then t' == Top(t, key) && rp' == rp && Rounds(t, key) == 1
              else && Assembled(lp, Top(t', key), rp') == Assembled(lp, Top(t, key), rp)
                   && Rounds(t, key) == 1 + Rounds(t', key)
      ensures mem - (All(lp, t, rp) + {NODE}) == old(mem) - (All(lp, t, rp) + {NODE})
    {
      right', t', rp' := right, t, rp;
      AtRoot(mem, lp, t, rp);
      RotSize(t);
      var tmp := mem[root].left;
      if tmp == NULL {
        return true, right', t', rp';
      }
      if key < mem[tmp].key {
        RotateRightRoot(tmp, lp, t, rp);
        t' := RotR(t);
        AtRoot(mem, lp, t', rp);
        if mem[root].left == NULL {
          return true, right', t', rp';
        }
      }
      LinkLeftAbove(lp, t', rp, key);
      right' := LinkLeftRoot(right, lp, t', rp);
      rp' := RNode(rp, t'.n, t'.key, t'.right);
      t' := t'.left;
      return false, right', t', rp';
    }

    /** SPLAY_ROTATE_LEFT */
    method RotateLeftRoot(tmp: Ptr, ghost lp: LPath, ghost t: Tree, ghost rp: RPath)
      requires Inv(mem, lp, t, rp) && root == t.n && t.right.Node? && tmp == t.right.n
      modifies this`mem, this`root
      ensures Inv(mem, lp, RotL(t), rp) && root == tmp
      ensures Inorder(RotL(t)) == Inorder(t) && All(lp, RotL(t), rp) == All(lp, t, rp)
      ensures mem - (All(lp, t, rp) + {NODE}) == old(mem) - (All(lp, t, rp) + {NODE})
    {
      RotateLeft(mem, lp, t, rp);
      RotLOrder(t);
      RotLShape(mem, t);
      ghost var ns := All(lp, t, rp) + {NODE};
      FrameUpdate(mem, root, mem[root].(right := mem[tmp].left), ns);
      mem := mem[root := mem[root].(right := mem[tmp].left)];
      FrameUpdate(mem, tmp, mem[tmp].(left := root), ns);
      mem := mem[tmp := mem[tmp].(left := root)];
      root := tmp;
    }

    /** SPLAY_LINKRIGHT */
    method LinkRightRoot(left: Ptr, ghost lp: LPath, ghost t: Tree, ghost rp: RPath) returns (left': Ptr)
      requires Inv(mem, lp, t, rp) && root == t.n && left == LTip(lp) && t.right.Node?
      modifies this`mem, this`root
      ensures Inv(mem, LNode(lp, t.left, t.n, t.key), t.right, rp) && root == t.right.n && left' == t.n
      ensures Flat(LNode(lp, t.left, t.n, t.key), t.right, rp) == Flat(lp, t, rp)
      ensures All(LNode(lp, t.left, t.n, t.key), t.right, rp) == All(lp, t, rp)
      ensures mem - (All(lp, t, rp) + {NODE}) == old(mem) - (All(lp, t, rp) + {NODE})
    {
      LinkRight(mem, lp, t, rp);
      LinkRightOrder(lp, t, rp);
      AtRoot(mem, lp, t, rp);
      mem := mem[left := mem[left].(right := root)];
      left' := root;
      AtRoot(old(mem), lp, t, rp);
      root := mem[root].right;
    }

    /** One round with the key to the right of the root. */
    method StepRight(key: int, left: Ptr, ghost lp: LPath, ghost t: Tree, ghost rp: RPath)
      returns (done: bool, left': Ptr, ghost lp': LPath, ghost t': Tree)
      requires Inv(mem, lp, t, rp) && root == t.n && left == LTip(lp) && key > t.key
      requires Sorted(Flat(lp, t, rp)) && AllBelow(LOrder(lp), key)
      modifies this`mem, this`root
      ensures Inv(mem, lp', t', rp) && root == t'.n && left' == LTip(lp')
      ensures Flat(lp', t', rp) == Flat(lp, t, rp) && All(lp', t', rp) == All(lp, t, rp) && AllBelow(LOrder(lp'), key)
      ensures if done then key > t'.key && t'.right.Nil? else Size(t') < Size(t)
      ensures if done then t' == Top(t, key) && lp' == lp && Rounds(t, key) == 1
              else && Assembled(lp', Top(t', key), rp) == Assembled(lp, Top(t, key), rp)
                   && Rounds(t, key) == 1 + Rounds(t', key)
      ensures mem - (All(lp, t, rp) + {NODE}) == old(mem) - (All(lp, t, rp) + {NODE})
    {
      left', t', lp' := left, t, lp;
      AtRoot(mem, lp, t, rp);
      RotSize(t);
      var tmp := mem[root].right;
      if tmp == NULL {
        return true, left', lp', t';
      }
      if key > mem[tmp].key {
        RotateLeftRoot(tmp, lp, t, rp);
        t' := RotL(t);
        AtRoot(mem, lp, t', rp);
        if mem[root].right == NULL {
          return true, left', lp', t';
        }
      }
      LinkRightBelow(lp, t', rp, key);
      left' := LinkRightRoot(left, lp, t', rp);
      lp' := LNode(lp, t'.left, t'.n, t'.key);
      t' := t'.right;
      return false, left', lp', t';
    }

    /** SPLAY_ASSEMBLE */
    method AssembleRoot(left: Ptr, right: Ptr, ghost lp: LPath, ghost t: Tree, ghost rp: RPath)
      requires Inv(mem, lp, t, rp) && root == t.n && left == LTip(lp) && right == RTip(rp)
      modifies this`mem
      ensures var r := Assembled(lp, t, rp);
        Shape(mem, r) && Sep(r) && Nodes(r) == All(lp, t, rp) && Inorder(r) == Flat(lp, t, rp)
      ensures mem - (All(lp, t, rp) + {NODE}) == old(mem) - (All(lp, t, rp) + {NODE})
    {
      AtRoot(mem, lp, t, rp);
      CloseAssemblies(mem, lp, t, rp);
      AssembledOrder(lp, t, rp);
      ghost var ns := All(lp, t, rp) + {NODE};
      assert left in ns && right in ns && root in ns;
      FrameUpdate(mem, left, mem[left].(right := mem[root].left), ns);
      mem := mem[left := mem[left].(right := mem[root].left)];
      FrameUpdate(mem, right, mem[right].(left := mem[root].right), ns);
      mem := mem[right := mem[right].(left := mem[root].right)];
      AssembledSep(lp, t, rp);
      JoinAssemblies(mem, root, AsmL(lp, t.left), AsmR(rp, t.right), t.key);
      FrameUpdate(mem, root, mem[root].(left := mem[NODE].right), ns);
      mem := mem[root := mem[root].(left := mem[NODE].right)];
      FrameUpdate(mem, root, mem[root].(right := mem[NODE].left), ns);
      mem := mem[root := mem[root].(right := mem[NODE].left)];
    }

    /**
      SPLAY: brings the element with the key, or a neighbour of it, to the root and keeps the
      contents in the same order.  The rounds of the loop are paid for by six times the logarithm
      of the number of nodes and by what the potential loses.
     */
    method Splay(key: int) returns (ghost rounds: nat)
      requires Valid() && root != NULL
      modifies this
      ensures Valid() && Splayed(tree, key) && Size(tree) == Size(old(tree))
      ensures tree == Top(old(tree), key) && rounds == Rounds(old(tree), key)
      ensures rounds + 2 * Rank(tree) <= 2 * Rank(old(tree)) + 6 * Lg(Size(tree)) + 1
      ensures Inorder(tree) == old(Inorder(tree)) && Nodes(tree) == old(Nodes(tree))
      ensures (exists e :: e in Inorder(tree) && e.key == key) ==> tree.key == key
      ensures mem - Nodes(tree) == old(mem) - Nodes(tree)
    {
      Positive(tree);
      ghost var t0, m0 := tree, mem;
      mem := mem[NODE := Struct(0, NULL, NULL)];
      SameShape(m0, mem, t0);
      var left, right;
      ghost var lp, t, rp;
      left, right, lp, t, rp, rounds := Descend(key, t0);
      Amortized(t0, key);
      ghost var m1 := mem;
      AssembleRoot(left, right, lp, t, rp);
      ghost var m2 := mem;
      mem := mem - {NODE};
      tree := Assembled(lp, t, rp);
      Positive(tree);
      SameShape(m2, mem, tree);
      SplayEnds(lp, t, rp, key);
      forall e | e in Inorder(tree) && e.key == key ensures tree.key == key {
        SplayFinds(tree, e);
      }
      FrameNode(m0, m1, m2, Nodes(t0));
    }

    /** The new element goes above the splayed tree, which is cut on the side where the key belongs. */
    method LinkAbove(elm: Ptr)
      requires Valid() && tree.Node? && elm > 0 && elm in mem && elm !in Nodes(tree)
      requires Splayed(tree, mem[elm].key) && tree.key != mem[elm].key
      modifies this
      ensures Valid() && tree == Inserted(old(tree), elm, old(mem[elm].key)) && Nodes(tree) == old(Nodes(tree)) + {elm}
      ensures mem - Nodes(tree) == old(mem) - Nodes(tree)
    {
      ghost var t, ns := tree, Nodes(tree) + {elm};
      var key := mem[elm].key;
      assert t.n in Nodes(t);
      InsertedOrder(t, elm, key);
      if key < mem[root].key {
        mem := mem[elm := mem[elm].(left := mem[root].left)];
        mem := mem[elm := mem[elm].(right := root)];
        mem := mem[root := mem[root].(left := NULL)];
        InsertedShapeLow(old(mem), mem, t, elm, key);
      } else {
        mem := mem[elm := mem[elm].(right := mem[root].right)];
        mem := mem[elm := mem[elm].(left := root)];
        mem := mem[root := mem[root].(right := NULL)];
        InsertedShapeHigh(old(mem), mem, t, elm, key);
      }
      root, tree := elm, Inserted(t, elm, key);
    }

    /** The first element. */
    method InsertFirst(elm: Ptr)
      requires Valid() && root == NULL && elm > 0 && elm in mem
      modifies this
      ensures Valid() && tree == Node(Nil, elm, old(mem[elm].key), Nil)
      ensures Inorder(tree) == [Ent(elm, old(mem[elm].key))] && Rank(tree) == 0 && Size(tree) == 1
      ensures Nodes(tree) == {elm} && mem - {elm} == old(mem) - {elm}
    {
      var key := mem[elm].key;
      InsertedOrder(tree, elm, key);
      mem := mem[elm := Struct(key, NULL, NULL)];
      root, tree := elm, Node(Nil, elm, key, Nil);
      assert Inorder(tree) == [Ent(elm, key)] && Size(tree) == 1;
    }

    /** SPLAY_INSERT into a tree that is not empty. */
    method InsertAbove(elm: Ptr, ghost c: nat) returns (found: Ptr, ghost rounds: nat)
      requires Valid() && root != NULL && elm > 0 && elm in mem && elm !in Nodes(tree)
      requires Lg(Size(tree)) <= c && Lg(Size(tree) + 1) <= c
      modifies this
      ensures Valid()
      ensures found != NULL ==>
        && Ent(found, old(mem[elm].key)) in Inorder(old(tree)) && Inorder(tree) == Inorder(old(tree))
        && Nodes(tree) == old(Nodes(tree))
      ensures found == NULL ==>
        && (forall e :: e in Inorder(old(tree)) ==> e.key != old(mem[elm].key))
        && (forall e :: e in Inorder(tree) <==> e == Ent(elm, old(mem[elm].key)) || e in Inorder(old(tree)))
        && Nodes(tree) == old(Nodes(tree)) + {elm}
      ensures mem - Nodes(tree) == old(mem) - Nodes(tree) && InsertCost(old(tree), tree, rounds, c)
    {
      var key := mem[elm].key;
      rounds := Splay(key);
      KeyKept(old(mem), mem, Nodes(tree), elm);
      ghost var m1, t := mem, tree;
      InsertedRank(t, elm, key);
      InsertPaid(old(tree), t, Inserted(t, elm, key), rounds, c);
      assert t.n in Nodes(t) && Ent(t.n, t.key) in Inorder(t);
      if key == mem[root].key {
        found := root;
        return;
      }
      InsertedOrder(t, elm, key);
      LinkAbove(elm);
      FrameWider(old(mem), m1, Nodes(t), Nodes(tree));
      found := NULL;
    }

    /** SPLAY_INSERT: returns the element already holding the key, or adds the new one and returns NULL. */
    method Insert(elm: Ptr) returns (found: Ptr, ghost rounds: nat)
      requires Valid() && elm > 0 && elm in mem && elm !in Nodes(tree)
      modifies this
      ensures Valid()
      ensures found != NULL ==> Ent(found, old(mem[elm].key)) in old(Contents()) && Contents() == old(Contents())
      ensures found != NULL ==> Nodes(tree) == old(Nodes(tree))
      ensures found == NULL ==>
        && (forall e :: e in old(Contents()) ==> e.key != old(mem[elm].key))
        && Contents() == old(Contents()) + {Ent(elm, old(mem[elm].key))} && Nodes(tree) == old(Nodes(tree)) + {elm}
      ensures mem - Nodes(tree) == old(mem) - Nodes(tree) && Size(tree) <= Size(old(tree)) + 1
      ensures rounds + 2 * Rank(tree) <= 2 * Rank(old(tree)) + 8 * Lg(Size(old(tree)) + 1) + 1
    {
      if root == NULL {
        InsertFirst(elm);
        return NULL, 0;
      }
      LgMono(Size(tree), Size(tree) + 1);
      found, rounds := InsertAbove(elm, Lg(Size(tree) + 1));
    }

    /** Takes the splayed root out and joins its two subtrees. */
    method CutRoot(key: int) returns (ghost rounds: nat)
      requires Valid() && tree.Node? && tree.key == key
      modifies this
      ensures Valid() && Nodes(tree) <= old(Nodes(tree)) && mem - old(Nodes(tree)) == old(mem) - old(Nodes(tree))
      ensures forall e :: e in Inorder(tree) <==> e in old(Inorder(tree)) && e != Ent(old(tree.n), key)
      ensures Size(tree) < Size(old(tree))
      ensures rounds + 2 * Rank(tree) <= 2 * Rank(old(tree)) + 6 * Lg(Size(old(tree))) + 1
    {
      ghost var t := tree;
      rounds := 0;
      assert Sep(t.left) && Sep(t.right) && Shape(mem, t.left) && Shape(mem, t.right);
      NodeOrder(t);
      if mem[root].left == NULL {
        root, tree := mem[root].right, t.right;
        RemoveOrder([], Ent(t.n, key), Inorder(t.right));
        assert [] + [Ent(t.n, key)] + Inorder(t.right) == Inorder(t) && [] + Inorder(t.right) == Inorder(t.right);
      } else {
        var tmp := mem[root].right;
        root, tree := mem[root].left, t.left;
        rounds := Splay(key);
        RightmostSplayed(tree, key);
        KeptShape(old(mem), mem, t.right, Nodes(tree));
        JoinOrder(t, tree);
        JoinShape(mem, tree, t.right);
        FrameWider(old(mem), mem, Nodes(tree), Nodes(t));
        assert tree.n in Nodes(tree);
        FrameUpdate(mem, root, mem[root].(right := tmp), Nodes(t));
        mem := mem[root := mem[root].(right := tmp)];
        JoinRank(t, tree);
        tree := tree.(right := t.right);
      }
    }

    /** SPLAY_REMOVE: removes the element whose key equals that of `elm`, if there is one. */
    method Remove(elm: Ptr) returns (removed: Ptr, ghost rounds: nat)
      requires Valid() && elm > 0 && elm in mem
      modifies this
      ensures Valid()
      ensures removed == if exists e :: e in old(Contents()) && e.key == old(mem[elm].key) then elm else NULL
      ensures Contents() == set e | e in old(Contents()) && e.key != old(mem[elm].key)
      ensures Nodes(tree) <= old(Nodes(tree)) && mem - old(Nodes(tree)) == old(mem) - old(Nodes(tree))
      ensures Size(tree) <= Size(old(tree))
      ensures rounds + 2 * Rank(tree) <= 2 * Rank(old(tree)) + 12 * Lg(Size(old(tree))) + 2
    {
      var key := mem[elm].key;
      if root == NULL {
        return NULL, 0;
      }
      rounds := Splay(key);
      ghost var t, m1 := tree, mem;
      assert Ent(t.n, t.key) in Inorder(t) && t.n in Nodes(t);
      if mem[root].key != key {
        removed := NULL;
        return;
      }
      ghost var more := CutRoot(key);
      rounds := rounds + more;
      UniqueKey(Inorder(t), Ent(t.n, key));
      removed := elm;
    }
  }

  /** One use of a splay tree. */
  datatype Op = Find(key: int) | Add(elm: Ptr) | Delete(elm: Ptr)

  /** `used` are the elements that have been in the tree; only another one may be added. */
  method Perform(h: Head, op: Op, used: set<Ptr>, ghost c: nat) returns (used': set<Ptr>, ghost rounds: nat)
    requires h.Valid() && Nodes(h.tree) <= used && Lg(Size(h.tree)) <= c && Lg(Size(h.tree) + 1) <= c
    modifies h
    ensures h.Valid() && Nodes(h.tree) <= used' && Size(h.tree) <= Size(old(h.tree)) + 1
    ensures rounds + 2 * Rank(h.tree) <= 2 * Rank(old(h.tree)) + 12 * c + 2
  {
    used', rounds := used, 0;
    match op {
      case Find(key) =>
        if h.root != NULL {
          rounds := h.Splay(key);
        }
      case Add(elm) =>
        if elm > 0 && elm in h.mem && elm !in used {
          var found;
          found, rounds := h.Insert(elm);
          used' := used + {elm};
        }
      case Delete(elm) =>
        if elm > 0 && elm in h.mem {
          var removed;
          removed, rounds := h.Remove(elm);
        }
    }
  }

  ghost function Spent(m: nat, c: nat): nat { if m == 0 then 0 else Spent(m - 1, c) + c }

  lemma {:induction false} SpentIs(m: nat, c: nat)
    ensures Spent(m, c) == m * c
  {
    if m > 0 {
      SpentIs(m - 1, c);
      assert (m - 1) * c + c == m * c;
    }
  }

  lemma LgBelow(size: nat, i: nat, n: nat, m: nat, c: nat)
    requires size <= n + i && i < m && Lg(n + m) <= c
    ensures Lg(size) <= c && Lg(size + 1) <= c
  {
    LgMono(size, n + m);
    LgMono(size + 1, n + m);
  }

  method PerformUpTo(h: Head, ops: seq<Op>, used: set<Ptr>, ghost n: nat, ghost c: nat) returns (ghost rounds: nat)
    requires h.Valid() && Nodes(h.tree) <= used && Size(h.tree) <= n && Lg(n + |ops|) <= c
    modifies h
    ensures h.Valid() && rounds <= 2 * Rank(old(h.tree)) + Spent(|ops|, 12 * c + 2)
  {
    rounds := 0;
    var i, now := 0, used;
    while i < |ops|
      invariant 0 <= i <= |ops| && h.Valid() && Nodes(h.tree) <= now && Size(h.tree) <= n + i
      invariant rounds + 2 * Rank(h.tree) <= 2 * Rank(old(h.tree)) + Spent(i, 12 * c + 2)
    {
      LgBelow(Size(h.tree), i, n, |ops|, c);
      ghost var more;
      now, more := Perform(h, ops[i], now, c);
      rounds := rounds + more;
      i := i + 1;
    }
  }

  /** m (12 lg(n + m) + 2) + 2 n lg n */
  ghost function Balance(n: nat, m: nat): nat { m * (12 * Lg(n + m) + 2) + 2 * (n * Lg(n)) }

  lemma BalanceIs(t: Tree, n: nat, m: nat, c: nat)
    requires n == Size(t) && c == Lg(n + m)
    ensures 2 * Rank(t) + Spent(m, 12 * c + 2) <= Balance(n, m)
  {
    RankBound(t, n);
    SpentIs(m, 12 * c + 2);
  }

  /** The Balance Theorem: the cost of m operations on a tree of n nodes. */
  method PerformAll(h: Head, ops: seq<Op>, used: set<Ptr>) returns (ghost rounds: nat)
    requires h.Valid() && Nodes(h.tree) <= used
    modifies h
    ensures h.Valid() && rounds <= Balance(Size(old(h.tree)), |ops|)
  {
    ghost var n, c := Size(h.tree), Lg(Size(h.tree) + |ops|);
    BalanceIs(h.tree, n, |ops|, c);
    rounds := PerformUpTo(h, ops, used, n, c);
  }

  lemma UniqueKey(s: seq<Ent>, x: Ent)
    requires Sorted(s) && x in s
    ensures forall e :: e in s && e.key == x.key ==> e == x
  {
  }

  /** Splaying for a key above every key leaves no right child at the root. */
  lemma RightmostSplayed(t: Tree, key: int)
    requires Splayed(t, key) && AllBelow(Inorder(t), key)
    ensures t.right.Nil?
  {
    assert Ent(t.n, t.key) in Inorder(t);
    HasMember(t.right);
  }

  lemma HasMember(t: Tree)
    ensures t.Node? ==> exists e :: e in Inorder(t)
  {
    assert t.Node? ==> Ent(t.n, t.key) in Inorder(t);
  }

  lemma KeyKept(m: Memory, m': Memory, ns: set<Ptr>, n: Ptr)
    requires m - ns == m' - ns && n in m && n !in ns
    ensures n in m' && m'[n] == m[n]
  {
    assert n in m - ns && (m - ns)[n] == m[n];
    assert n in m' - ns && (m' - ns)[n] == m'[n];
  }

  lemma KeptShape(m: Memory, m': Memory, t: Tree, ns: set<Ptr>)
    requires m - ns == m' - ns && Shape(m, t) && Nodes(t) !! ns
    ensures Shape(m', t)
  {
    forall n | n in Nodes(t) && n in m ensures n in m' && m'[n] == m[n] {
      KeyKept(m, m', ns, n);
    }
    SameShape(m, m', t);
  }

  lemma FrameWider(m: Memory, m': Memory, ns: set<Ptr>, wider: set<Ptr>)
    requires m - ns == m' - ns && ns <= wider
    ensures m - wider == m' - wider
  {
    assert m - wider == (m - ns) - wider && m' - wider == (m' - ns) - wider;
  }

  lemma FrameUpdate(m: Memory, n: Ptr, v: Struct, ns: set<Ptr>)
    requires n in ns
    ensures m[n := v] - ns == m - ns
  {
  }

  lemma FrameNode(m0: Memory, m1: Memory, m2: Memory, ns: set<Ptr>)
    requires NODE !in m0 && NODE !in ns
    requires m1 - (ns + {NODE}) == m0[NODE := Struct(0, NULL, NULL)] - (ns + {NODE})
    requires m2 - (ns + {NODE}) == m1 - (ns + {NODE})
    ensures m2 - {NODE} - ns == m0 - ns
  {
    assert m0[NODE := Struct(0, NULL, NULL)] - (ns + {NODE}) == m0 - ns;
    assert m2 - {NODE} - ns == m2 - (ns + {NODE});
  }
}
