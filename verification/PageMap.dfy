/**
  The radix map from page numbers to page descriptors (page_find_alloc in translate-all.c): a
  fixed top-level table, lower tables and blocks of descriptors that are allocated on demand.
 */
module PageMap {
  import opened Collections

  type Ptr = nat

  const L2_SIZE: nat := 1024
  const ROOT: Ptr := 1

  /** Where a descriptor lies: a block of descriptors and an index into it. */
  datatype Place = Place(leaf: Ptr, slot: nat)

  type Tables = map<Ptr, seq<Ptr>>

  /** index >> (i * L2_BITS) */
  function Shift(index: nat, i: nat): nat { if i == 0 then index else Shift(index, i - 1) / L2_SIZE }

  function Slot(t: Tables, p: Ptr, j: nat): Ptr { if p in t && j < |t[p]| then t[p][j] else 0 }

  /** The slot of a level-i table that leads to index; the top level is not masked further. */
  function Digit(depth: nat, index: nat, i: nat): nat {
    if i == depth then Shift(index, i) else Shift(index, i) % L2_SIZE
  }

  /** The table of level i, or for level 0 the block of descriptors, on the way to index; 0 if there is none. */
  function Walk(t: Tables, depth: nat, index: nat, i: nat): Ptr
    decreases depth - i
  {
    if i >= depth then ROOT else Slot(t, Walk(t, depth, index, i + 1), Digit(depth, index, i + 1))
  }

  function Find(t: Tables, depth: nat, index: nat): Option<Place> {
    var leaf := Walk(t, depth, index, 0);
    if leaf == 0 then None else Some(Place(leaf, index % L2_SIZE))
  }

  /** What a table or block is for: its level, and the leading digits of the indexes below it. */
  datatype Role = Role(level: nat, key: nat)

  function ChildKey(p: Ptr, key: nat, j: nat): nat { if p == ROOT then j else key * L2_SIZE + j }

  /** A non-NULL slot leads to a table or block with the role that its position gives it. */
  predicate SlotOk(t: Tables, roles: map<Ptr, Role>, leaves: set<Ptr>, p: Ptr, j: nat) {
    var q := Slot(t, p, j);
    q != 0 && p in roles && roles[p].level >= 1 ==>
      && q in roles && q != ROOT && roles[q] == Role(roles[p].level - 1, ChildKey(p, roles[p].key, j))
      && (if roles[q].level == 0 then q in leaves else q in t)
  }

  ghost predicate Shaped(t: Tables, roles: map<Ptr, Role>, leaves: set<Ptr>, depth: nat, l1Size: nat) {
    && depth >= 1 && ROOT in t && ROOT in roles && roles[ROOT].level == depth && 0 !in t && 0 !in leaves
    && (forall p :: p in t ==> p in roles && 1 <= roles[p].level <= depth && |t[p]| == if p == ROOT then l1Size
      else L2_SIZE)
    && (forall p, j :: p in t ==> SlotOk(t, roles, leaves, p, j))
    && (forall p :: p in leaves ==> p in roles && roles[p].level == 0)
  }

  /** Whatever is found on the way to an index carries its leading digits. */
  lemma {:induction false} WalkRole(t: Tables, roles: map<Ptr, Role>, leaves: set<Ptr>, depth: nat, l1Size: nat,
                                    index: nat, i: nat)
    requires Shaped(t, roles, leaves, depth, l1Size) && i < depth
    ensures var p := Walk(t, depth, index, i);
      p != 0 ==> p in roles && p != ROOT && roles[p] == Role(i, Shift(index, i + 1)) && (if i == 0 then p in leaves
        else p in t)
    decreases depth - i
  {
    var p := Walk(t, depth, index, i + 1);
    var j := Digit(depth, index, i + 1);
    if i + 1 < depth {
      WalkRole(t, roles, leaves, depth, l1Size, index, i + 1);
    }
    if p in t {
      assert SlotOk(t, roles, leaves, p, j);
      assert ChildKey(p, roles[p].key, j) == Shift(index, i + 1);
    }
  }

  /** Different indexes have different descriptors. */
  lemma PlacesDiffer(t: Tables, roles: map<Ptr, Role>, leaves: set<Ptr>, depth: nat, l1Size: nat, a: nat, b: nat)
    requires Shaped(t, roles, leaves, depth, l1Size) && Find(t, depth, a).Some?
    requires Find(t, depth, a) == Find(t, depth, b)
    ensures a == b
  {
    WalkRole(t, roles, leaves, depth, l1Size, a, 0);
    WalkRole(t, roles, leaves, depth, l1Size, b, 0);
    assert Shift(a, 1) == a / L2_SIZE && Shift(b, 1) == b / L2_SIZE;
  }

  /** Filling an empty slot changes no walk that succeeded. */
  lemma {:induction false} WalkKept(t: Tables, t': Tables, depth: nat, index: nat, i: nat)
    requires 0 !in t && forall x, y :: Slot(t, x, y) != 0 ==> Slot(t', x, y) == Slot(t, x, y)
    requires Walk(t, depth, index, i) != 0
    ensures Walk(t', depth, index, i) == Walk(t, depth, index, i)
    decreases depth - i
  {
    if i < depth {
      WalkKept(t, t', depth, index, i + 1);
    }
  }

  function SetSlot(t: Tables, p: Ptr, j: nat, q: Ptr): (r: Tables)
    requires p in t && j < |t[p]|
    ensures forall x, y :: Slot(r, x, y) == if x == p && y == j then q else Slot(t, x, y)
  {
    var s: seq<Ptr> := t[p][j := q];
    t[p := s]
  }

  function Empty(n: nat): seq<Ptr> { seq(n, _ => 0) }

  /** A new lower table. */
  lemma NewTable(t: Tables, roles: map<Ptr, Role>, leaves: set<Ptr>, depth: nat, l1Size: nat, p: Ptr, j: nat, q: Ptr)
    requires Shaped(t, roles, leaves, depth, l1Size) && p in t && j < |t[p]| && t[p][j] == 0 && q !in roles && q != 0
    requires roles[p].level >= 2
    ensures Shaped(SetSlot(t, p, j, q)[q := Empty(L2_SIZE)],
                   roles[q := Role(roles[p].level - 1, ChildKey(p, roles[p].key, j))], leaves, depth, l1Size)
  {
    var t' := SetSlot(t, p, j, q)[q := Empty(L2_SIZE)];
    var roles' := roles[q := Role(roles[p].level - 1, ChildKey(p, roles[p].key, j))];
    assert q !in t && q !in leaves;
    forall x, y | x in t' ensures SlotOk(t', roles', leaves, x, y) {
      if x in t {
        assert SlotOk(t, roles, leaves, x, y);
      }
    }
  }

  /** A new block of descriptors. */
  lemma NewLeaf(t: Tables, roles: map<Ptr, Role>, leaves: set<Ptr>, depth: nat, l1Size: nat, p: Ptr, j: nat, q: Ptr)
    requires Shaped(t, roles, leaves, depth, l1Size) && p in t && j < |t[p]| && t[p][j] == 0 && q !in roles && q != 0
    requires roles[p].level == 1
    ensures Shaped(SetSlot(t, p, j, q), roles[q := Role(0, ChildKey(p, roles[p].key, j))], leaves + {q}, depth, l1Size)
  {
    var t' := SetSlot(t, p, j, q);
    var roles' := roles[q := Role(0, ChildKey(p, roles[p].key, j))];
    assert q !in t && q !in leaves;
    forall x, y | x in t' ensures SlotOk(t', roles', leaves + {q}, x, y) {
      assert SlotOk(t, roles, leaves, x, y);
    }
  }

  class RadixMap<Desc> {
    const depth: nat
    const l1Size: nat
    const zero: Desc
    var tables: Tables
    var blocks: map<Ptr, seq<Desc>>
    var next: Ptr
    ghost var roles: map<Ptr, Role>

    ghost predicate Valid()
      reads this
    {
      && Shaped(tables, roles, blocks.Keys, depth, l1Size) && next > ROOT
      && (forall p :: p in roles ==> p < next)
      && (forall p :: p in blocks ==> |blocks[p]| == L2_SIZE)
    }

    /** The descriptor that a place holds. */
    function Content(x: Place): Option<Desc>
      reads this
    {
      if x.leaf in blocks && x.slot < |blocks[x.leaf]| then Some(blocks[x.leaf][x.slot]) else None
    }

    constructor (depth: nat, l1Size: nat, zero: Desc)
      requires depth >= 1
      ensures Valid() && forall index :: Find(tables, this.depth, index) == None
    {
      this.depth, this.l1Size, this.zero := depth, l1Size, zero;
      tables := map[ROOT := Empty(l1Size)];
      blocks := map[];
      next := ROOT + 1;
      roles := map[ROOT := Role(depth, 0)];
      new;
      forall index ensures Find(tables, this.depth, index) == None {
        assert Slot(tables, ROOT, Digit(this.depth, index, this.depth)) == 0;
      }
    }

    /** Lookups that succeeded before still give the same place with the same contents. */
    ghost predicate Keeps(t0: Tables, blocks0: map<Ptr, seq<Desc>>)
      reads this
    {
      && (forall index :: Find(t0, depth, index).Some? ==> Find(tables, depth, index) == Find(t0, depth, index))
      && (forall p :: p in blocks0 ==> p in blocks && blocks[p] == blocks0[p])
    }

    /** page_find: page_find_alloc without allocation */
    method PageFind(index: nat) returns (r: Option<Place>)
      requires Valid() && Shift(index, depth) < l1Size
      ensures r == Find(tables, depth, index)
    {
      var p, i := ROOT, depth;
      while i > 0
        invariant 0 <= i <= depth && p != 0 && p == Walk(tables, depth, index, i)
      {
        p := Slot(tables, p, Digit(depth, index, i));
        i := i - 1;
        if p == 0 {
          DeadEnd(tables, depth, index, i, 0);
          return None;
        }
      }
      r := Some(Place(p, index % L2_SIZE));
    }

    /** page_find_alloc with allocation */
    method PageFindAlloc(index: nat) returns (r: Place)
      requires Valid() && Shift(index, depth) < l1Size
      modifies this
      ensures Valid() && Find(tables, depth, index) == Some(r) && Keeps(old(tables), old(blocks))
      ensures Content(r) != None && (r.leaf !in old(blocks) ==> Content(r) == Some(zero))
    {
      var p, i := ROOT, depth;
      while i > 1
        invariant 1 <= i <= depth && Valid() && p != 0 && p == Walk(tables, depth, index, i)
        invariant Keeps(old(tables), old(blocks)) && blocks == old(blocks)
        decreases i
      {
        var q := Slot(tables, p, Digit(depth, index, i));
        if q == 0 {
          q := AddTable(index, p, i, old(tables));
        }
        p := q;
        i := i - 1;
      }
      var q := Slot(tables, p, Digit(depth, index, 1));
      if q == 0 {
        q := AddBlock(index, p, old(tables));
      }
      r := Place(q, index % L2_SIZE);
      WalkRole(tables, roles, blocks.Keys, depth, l1Size, index, 0);
    }

    /** A missing table is allocated. */
    method AddTable(index: nat, p: Ptr, i: nat, ghost t0: Tables) returns (q: Ptr)
      requires Valid() && 2 <= i <= depth && Shift(index, depth) < l1Size && p == Walk(tables, depth, index, i)
      requires p != 0
      requires Slot(tables, p, Digit(depth, index, i)) == 0 && Keeps(t0, blocks)
      modifies this`tables, this`next, this`roles
      ensures Valid() && q != 0 && q == Walk(tables, depth, index, i - 1) && Keeps(t0, blocks)
    {
      var j := Digit(depth, index, i);
      TableAt(index, i);
      q := next;
      NewTable(tables, roles, blocks.Keys, depth, l1Size, p, j, q);
      ghost var t1 := tables;
      tables := SetSlot(tables, p, j, q)[q := Empty(L2_SIZE)];
      roles := roles[q := Role(i - 1, ChildKey(p, roles[p].key, j))];
      next := next + 1;
      WalkKept(t1, tables, depth, index, i);
      AllKept(t0, t1, tables, depth);
    }

    /** A missing block of descriptors is allocated and cleared. */
    method AddBlock(index: nat, p: Ptr, ghost t0: Tables) returns (q: Ptr)
      requires Valid() && Shift(index, depth) < l1Size && p == Walk(tables, depth, index, 1) && p != 0
      requires Slot(tables, p, Digit(depth, index, 1)) == 0 && Keeps(t0, blocks)
      modifies this`tables, this`next, this`roles, this`blocks
      ensures Valid() && q != 0 && q == Walk(tables, depth, index, 0) && Keeps(t0, old(blocks))
      ensures q !in old(blocks) && q in blocks && blocks[q] == seq(L2_SIZE, _ => zero)
    {
      var j := Digit(depth, index, 1);
      TableAt(index, 1);
      q := next;
      NewLeaf(tables, roles, blocks.Keys, depth, l1Size, p, j, q);
      ghost var t1 := tables;
      tables := SetSlot(tables, p, j, q);
      assert (blocks[q := seq(L2_SIZE, _ => zero)]).Keys == blocks.Keys + {q};
      blocks := blocks[q := seq(L2_SIZE, _ => zero)];
      roles := roles[q := Role(0, ChildKey(p, roles[p].key, j))];
      next := next + 1;
      WalkKept(t1, tables, depth, index, 1);
      AllKept(t0, t1, tables, depth);
    }

    lemma TableAt(index: nat, i: nat)
      requires Valid() && 1 <= i <= depth && Shift(index, depth) < l1Size && Walk(tables, depth, index, i) != 0
      ensures var p := Walk(tables, depth, index, i);
        p in tables && p in roles && roles[p].level == i && Digit(depth, index, i) < |tables[p]|
    {
      if i < depth {
        WalkRole(tables, roles, blocks.Keys, depth, l1Size, index, i);
      }
    }
  }

  lemma {:induction false} DeadEnd(t: Tables, depth: nat, index: nat, i: nat, k: nat)
    requires 0 !in t && k <= i && Walk(t, depth, index, i) == 0
    ensures Walk(t, depth, index, k) == 0
    decreases i - k
  {
    if k < i {
      DeadEnd(t, depth, index, i, k + 1);
    }
  }

  lemma AllKept(t0: Tables, t1: Tables, t2: Tables, depth: nat)
    requires 0 !in t1 && forall x, y :: Slot(t1, x, y) != 0 ==> Slot(t2, x, y) == Slot(t1, x, y)
    requires forall index :: Find(t0, depth, index).Some? ==> Find(t1, depth, index) == Find(t0, depth, index)
    ensures forall index :: Find(t0, depth, index).Some? ==> Find(t2, depth, index) == Find(t0, depth, index)
  {
    forall index | Find(t0, depth, index).Some? ensures Find(t2, depth, index) == Find(t0, depth, index) {
      WalkKept(t1, t2, depth, index, 0);
    }
  }
}
