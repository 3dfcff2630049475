/**
  What the splay loop of sys-tree.h costs: the logarithmic amortized bound that the header's
  comment promises.  The potential of a tree is the sum of the logarithms of its subtree sizes;
  every splay pays for its rounds with six times the logarithm of the number of nodes and what
  it takes off the potential.
 */
module SplayCost {
  import opened SplayModel

  /** The tree that SPLAY makes of t: each round puts the rest below a root that is brought up from it. */
  ghost function Top(t: Tree, key: int): (r: Tree)
    requires t.Node?
    ensures r.Node? && Size(r) == Size(t)
    decreases Size(t)
  {
    if key == t.key then t
    else if key < t.key then
      if t.left.Nil? then t
      else if key < t.left.key then
        var r := RotR(t);
        if r.left.Nil? then r else OverR(Top(r.left, key), r)
      else OverR(Top(t.left, key), t)
    else
      if t.right.Nil? then t
      else if key > t.right.key then
        var r := RotL(t);
        if r.right.Nil? then r else OverL(Top(r.right, key), r)
      else OverL(Top(t.right, key), t)
  }

  /** s, made of the left subtree of t, becomes the root and t its right child. */
  function OverR(s: Tree, t: Tree): Tree
    requires s.Node? && t.Node?
  {
    Node(s.left, s.n, s.key, Node(s.right, t.n, t.key, t.right))
  }

  function OverL(s: Tree, t: Tree): Tree
    requires s.Node? && t.Node?
  {
    Node(Node(t.left, t.n, t.key, s.left), s.n, s.key, s.right)
  }

  /** How often the loop body runs. */
  ghost function Rounds(t: Tree, key: int): nat
    requires t.Node?
    decreases t
  {
    if key == t.key then 0
    else if key < t.key then
      if t.left.Nil? then 1
      else if key < t.left.key then if t.left.left.Nil? then 1 else 1 + Rounds(t.left.left, key)
      else 1 + Rounds(t.left, key)
    else
      if t.right.Nil? then 1
      else if key > t.right.key then if t.right.right.Nil? then 1 else 1 + Rounds(t.right.right, key)
      else 1 + Rounds(t.right, key)
  }

  /** The logarithm to base 2, rounded down. */
  ghost function Lg(n: nat): nat { if n <= 1 then 0 else 1 + Lg(n / 2) }

  /** The sum of the logarithms of all subtree sizes. */
  ghost function Rank(t: Tree): nat { if t.Nil? then 0 else Lg(Size(t)) + Rank(t.left) + Rank(t.right) }

  lemma {:induction false} LgMono(a: nat, b: nat)
    requires a <= b
    ensures Lg(a) <= Lg(b)
    decreases b
  {
    if a > 1 {
      LgMono(a / 2, b / 2);
    }
  }

  lemma LgTwice(a: nat, t: nat)
    requires 0 < a && 2 * a <= t
    ensures Lg(a) + 1 <= Lg(t)
  {
    assert 2 * a / 2 == a;
    LgMono(2 * a, t);
  }

  /** Of two parts of a whole, one is at most half of it. */
  lemma Halves(a: nat, b: nat, t: nat)
    requires a > 0 && b > 0 && a + b <= t
    ensures Lg(a) + Lg(b) + 1 <= 2 * Lg(t)
  {
    LgMono(a, t);
    LgMono(b, t);
    if a <= b {
      LgTwice(a, t);
    } else {
      LgTwice(b, t);
    }
  }

  // ----- One splay -----------------------------------------------------------

  /** The rounds are paid for by six times the logarithm of the size and by the potential. */
  ghost predicate Paid(t: Tree, key: int)
    requires t.Node?
  {
    Rounds(t, key) + 2 * Rank(Top(t, key)) <= 2 * Rank(t) + 6 * Lg(Size(t)) + 1
  }

  lemma ZigZig(t: Tree, key: int)
    requires t.Node? && t.left.Node? && key < t.key && key < t.left.key
    requires t.left.left.Node? && Paid(t.left.left, key)
    ensures Paid(t, key)
  {
    var v := t.left.left;
    var s := Top(v, key);
    var inner := Node(t.left.right, t.n, t.key, t.right);
    var lower := Node(s.right, t.left.n, t.left.key, inner);
    assert Top(t, key) == Node(s.left, s.n, s.key, lower);
    assert Size(t.left) == 1 + Size(v) + Size(t.left.right) && Size(v) == 1 + Size(s.left) + Size(s.right);
    assert Size(lower) == 1 + Size(s.right) + Size(inner) && Rank(s) == Lg(Size(v)) + Rank(s.left) + Rank(s.right);
    assert Rank(t.left) == Lg(Size(t.left)) + Rank(v) + Rank(t.left.right);
    assert Rank(lower) == Lg(Size(lower)) + Rank(s.right) + Rank(inner);
    Halves(Size(inner), Size(v), Size(t));
    LgMono(Size(lower), Size(t));
    LgMono(Size(v), Size(t.left));
    LgMono(Size(v), Size(t));
    assert Rounds(t, key) == Rounds(v, key) + 1;
  }

  lemma ZigZag(t: Tree, key: int)
    requires t.Node? && t.left.Node? && t.left.key < key < t.key
    requires t.left.right.Node? && key <= t.left.right.key && Paid(t.left.right, key)
    ensures Paid(t, key)
  {
    var u, v := t.left, t.left.right;
    var s := Top(v, key);
    var lower, upper := Node(u.left, u.n, u.key, s.left), Node(s.right, t.n, t.key, t.right);
    assert Top(t, key) == Node(lower, s.n, s.key, upper);
    Halves(Size(lower), Size(upper), Size(t));
    LgMono(Size(v), Size(u));
    LgMono(Size(v), Size(t));
    assert Rounds(t, key) == Rounds(v, key) + 2;
  }

  lemma ZigThenZigZig(t: Tree, key: int)
    requires t.Node? && t.left.Node? && t.left.key < key < t.key
    requires t.left.right.Node? && key > t.left.right.key
    requires t.left.right.right.Node? && Paid(t.left.right.right, key)
    ensures Paid(t, key)
  {
    var u, w := t.left, t.left.right;
    var v := w.right;
    var s := Top(v, key);
    var inner := Node(u.left, u.n, u.key, w.left);
    var lower, upper := Node(inner, w.n, w.key, s.left), Node(s.right, t.n, t.key, t.right);
    assert Top(u, key) == Node(lower, s.n, s.key, s.right);
    assert Top(t, key) == Node(lower, s.n, s.key, upper);
    assert Rank(u) == Lg(Size(u)) + Rank(u.left) + Rank(w) && Rank(w) == Lg(Size(w)) + Rank(w.left) + Rank(v);
    assert Rank(lower) == Lg(Size(lower)) + Rank(inner) + Rank(s.left);
    Halves(Size(lower), Size(upper), Size(t));
    LgMono(Size(inner), Size(u));
    LgMono(Size(v), Size(w));
    LgMono(Size(v), Size(t));
    assert Rounds(t, key) == Rounds(v, key) + 2;
  }

  // ----- The last rounds -------------------------------------------------------

  // ----- Every splay ---------------------------------------------------------

  /** The same tree seen from the other side. */
  ghost function Mirror(t: Tree): Tree {
    if t.Nil? then Nil else Node(Mirror(t.right), t.n, -t.key, Mirror(t.left))
  }

  lemma {:induction false} MirrorSame(t: Tree)
    ensures Size(Mirror(t)) == Size(t) && Rank(Mirror(t)) == Rank(t)
  {
    if t.Node? {
      MirrorSame(t.left);
      MirrorSame(t.right);
    }
  }

  lemma MirrorRot(t: Tree)
    requires t.Node?
    ensures t.left.Node? ==> Mirror(t).right.Node? && Mirror(RotR(t)) == RotL(Mirror(t))
    ensures t.right.Node? ==> Mirror(t).left.Node? && Mirror(RotL(t)) == RotR(Mirror(t))
  {
  }

  lemma MirrorOver(s: Tree, t: Tree)
    requires s.Node? && t.Node?
    ensures Mirror(OverR(s, t)) == OverL(Mirror(s), Mirror(t)) && Mirror(OverL(s, t)) == OverR(Mirror(s), Mirror(t))
  {
  }

  lemma {:induction false} MirrorTop(t: Tree, key: int)
    requires t.Node?
    ensures Mirror(t).Node? && Top(Mirror(t), -key) == Mirror(Top(t, key)) && Rounds(Mirror(t), -key) == Rounds(t, key)
    decreases t
  {
    var m := Mirror(t);
    MirrorRot(t);
    if key < t.key && t.left.Node? {
      var u := t.left;
      assert m.right == Mirror(u) && m.right.right == Mirror(u.left);
      if key < u.key {
        if u.left.Node? {
          MirrorTop(u.left, key);
          MirrorOver(Top(u.left, key), RotR(t));
        }
      } else {
        MirrorTop(u, key);
        MirrorOver(Top(u, key), t);
      }
    } else if key > t.key && t.right.Node? {
      var u := t.right;
      assert m.left == Mirror(u) && m.left.left == Mirror(u.right);
      if key > u.key {
        if u.right.Node? {
          MirrorTop(u.right, key);
          MirrorOver(Top(u.right, key), RotL(t));
        }
      } else {
        MirrorTop(u, key);
        MirrorOver(Top(u, key), t);
      }
    }
  }

  lemma ZigZigEnd(t: Tree, key: int)
    requires t.Node? && t.left.Node? && key < t.key && key < t.left.key && t.left.left.Nil?
    ensures Paid(t, key)
  {
    var inner := Node(t.left.right, t.n, t.key, t.right);
    assert Top(t, key) == Node(Nil, t.left.n, t.left.key, inner);
    LgMono(Size(inner), Size(t));
  }

  lemma ZigEnd(t: Tree, key: int)
    requires t.Node? && t.left.Node? && t.left.key <= key < t.key && (key == t.left.key || t.left.right.Nil?)
    ensures Paid(t, key)
  {
    var u := t.left;
    var upper := Node(u.right, t.n, t.key, t.right);
    assert Top(u, key) == u && Rounds(u, key) <= 1;
    assert Top(t, key) == Node(u.left, u.n, u.key, upper);
    LgMono(Size(upper), Size(t));
    LgMono(2, Size(t));
  }

  lemma ZigThenEnd(t: Tree, key: int)
    requires t.Node? && t.left.Node? && t.left.key < key < t.key
    requires t.left.right.Node? && key > t.left.right.key && t.left.right.right.Nil?
    ensures Paid(t, key)
  {
    var u, w := t.left, t.left.right;
    var inner, upper := Node(u.left, u.n, u.key, w.left), Node(Nil, t.n, t.key, t.right);
    assert Top(u, key) == Node(inner, w.n, w.key, Nil);
    assert Top(t, key) == Node(inner, w.n, w.key, upper);
    assert Rank(u) == Lg(Size(u)) + Rank(u.left) + Rank(w);
    Halves(Size(inner), Size(upper), Size(t));
    assert Rounds(t, key) == 2;
  }

  /** Every splay pays for its rounds. */
  lemma {:induction false} Amortized(t: Tree, key: int)
    requires t.Node?
    ensures Paid(t, key)
    decreases Size(t), 1
  {
    if key < t.key {
      AmortizedLeft(t, key);
    } else if key > t.key {
      MirrorSame(t);
      MirrorTop(t, key);
      AmortizedLeft(Mirror(t), -key);
      MirrorSame(Top(t, key));
    }
  }

  lemma {:induction false} AmortizedLeft(t: Tree, key: int)
    requires t.Node? && key < t.key
    ensures Paid(t, key)
    decreases Size(t), 0
  {
    var u := t.left;
    assert Size(t) == 1 + Size(u) + Size(t.right);
    assert u.Node? ==> Size(u) == 1 + Size(u.left) + Size(u.right);
    assert u.Node? && u.right.Node? ==> Size(u.right) == 1 + Size(u.right.left) + Size(u.right.right);
    if u.Nil? {
      return;
    }
    if key < u.key {
      if u.left.Node? {
        Amortized(u.left, key);
        ZigZig(t, key);
      } else {
        ZigZigEnd(t, key);
      }
    } else if key == u.key || u.right.Nil? {
      ZigEnd(t, key);
    } else if key <= u.right.key {
      Amortized(u.right, key);
      ZigZag(t, key);
    } else if u.right.right.Node? {
      Amortized(u.right.right, key);
      ZigThenZigZig(t, key);
    } else {
      ZigThenEnd(t, key);
    }
  }

  // ----- Insertion and removal at the root -------------------------------------

  lemma InsertedRank(t: Tree, n: Ptr, key: int)
    ensures Size(Inserted(t, n, key)) == Size(t) + 1
    ensures Rank(Inserted(t, n, key)) <= Rank(t) + Lg(Size(t) + 1)
  {
    if t.Node? {
      var low, high := t.(left := Nil), t.(right := Nil);
      assert Size(low) == 1 + Size(t.right) && Rank(low) == Lg(Size(low)) + Rank(t.right);
      assert Size(high) == 1 + Size(t.left) && Rank(high) == Lg(Size(high)) + Rank(t.left);
      LgMono(Size(high), Size(t));
      LgMono(Size(low), Size(t));
    }
  }

  /** What an insertion that makes t out of t0 may cost, if c bounds the logarithm of the sizes. */
  ghost predicate InsertCost(t0: Tree, t: Tree, rounds: nat, c: nat) {
    Size(t) <= Size(t0) + 1 && rounds + 2 * Rank(t) <= 2 * Rank(t0) + 8 * c + 1
  }

  /** The splay and the new root together. */
  lemma InsertPaid(t0: Tree, t: Tree, t': Tree, rounds: nat, c: nat)
    requires Size(t) == Size(t0) && rounds + 2 * Rank(t) <= 2 * Rank(t0) + 6 * Lg(Size(t)) + 1
    requires Size(t') == Size(t) + 1 && Rank(t') <= Rank(t) + Lg(Size(t) + 1)
    requires Lg(Size(t)) <= c && Lg(Size(t) + 1) <= c
    ensures InsertCost(t0, t, rounds, c) && InsertCost(t0, t', rounds, c)
  {
  }

  /** The root of t is replaced by that of l, the splayed left subtree. */
  lemma JoinRank(t: Tree, l: Tree)
    requires t.Node? && l.Node? && l.right.Nil? && Size(l) == Size(t.left)
    ensures Size(l.(right := t.right)) == Size(t) - 1
    ensures Rank(l.(right := t.right)) + Lg(Size(l)) + Rank(t.left) <= Rank(t) + Rank(l) && Lg(Size(l)) <= Lg(Size(t))
  {
    JoinSize(t, l);
    var joined := l.(right := t.right);
    LgMono(Size(joined), Size(t));
    LgMono(Size(l), Size(t));
    JoinSum(t, l, joined);
  }

  lemma JoinSize(t: Tree, l: Tree)
    requires t.Node? && l.Node? && l.right.Nil? && Size(l) == Size(t.left)
    ensures Size(l.(right := t.right)) == Size(t) - 1 && Size(l) <= Size(t)
  {
  }

  lemma JoinSum(t: Tree, l: Tree, joined: Tree)
    requires t.Node? && l.Node? && l.right.Nil? && joined == l.(right := t.right)
    ensures Rank(joined) + Lg(Size(l)) + Rank(t.left) + Lg(Size(t)) == Rank(t) + Rank(l) + Lg(Size(joined))
  {
  }

  lemma {:induction false} RankBound(t: Tree, n: nat)
    requires Size(t) <= n
    ensures Rank(t) <= Size(t) * Lg(n)
  {
    if t.Node? {
      RankBound(t.left, n);
      RankBound(t.right, n);
      LgMono(Size(t), n);
      Distribute(Size(t.left), Size(t.right), Lg(n));
    }
  }

  lemma Distribute(a: nat, b: nat, c: nat)
    ensures (1 + a + b) * c == c + a * c + b * c
  {
  }
}
