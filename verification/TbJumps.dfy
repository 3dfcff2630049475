/**
  Direct block chaining (translate-all.c, exec-all.h).  Every translated block T owns a
  circular list that starts at its jmp_first field and runs through the jmp_next[n] fields of
  the blocks that jump to T; the low bits of a link say which field comes next: 0 and 1 are
  jmp_next[0] and jmp_next[1], 2 is jmp_first.
 */
module TbJumps {
  import opened Collections

  type Ptr = nat

  /** A tagged pointer, which is also the name of a link field. */
  datatype Link = Null | To(tb: Ptr, n: nat)

  /** The chaining fields of a block, and where its two patched jumps lead. */
  datatype Jumps = Jumps(next0: Link, next1: Link, first: Link, target0: Option<Ptr>, target1: Option<Ptr>)

  type Memory = map<Ptr, Jumps>

  predicate IsField(m: Memory, l: Link) { l.To? && l.tb in m && l.n <= 2 }

  function Val(m: Memory, l: Link): Link
    requires IsField(m, l)
  {
    var j := m[l.tb];
    if l.n == 0 then j.next0 else if l.n == 1 then j.next1 else j.first
  }

  function SetVal(m: Memory, l: Link, v: Link): (m': Memory)
    requires IsField(m, l)
    ensures m'.Keys == m.Keys
    ensures forall k :: IsField(m, k) ==> IsField(m', k) && Val(m', k) == if k == l then v else Val(m, k)
    ensures forall s, n :: s in m ==> Target(m', s, n) == Target(m, s, n)
  {
    var j := m[l.tb];
    m[l.tb := if l.n == 0 then j.(next0 := v) else if l.n == 1 then j.(next1 := v) else j.(first := v)]
  }

  function Target(m: Memory, s: Ptr, n: nat): Option<Ptr>
    requires s in m
  {
    if n == 0 then m[s].target0 else m[s].target1
  }

  /** Patches (or, with None, unpatches) the n-th jump of s. */
  function Patch(m: Memory, s: Ptr, n: nat, t: Option<Ptr>): (m': Memory)
    requires s in m && n <= 1
    ensures m'.Keys == m.Keys
    ensures forall k :: IsField(m, k) ==> IsField(m', k) && Val(m', k) == Val(m, k)
    ensures forall s', n' :: s' in m && n' <= 1 ==>
      Target(m', s', n') == if s' == s && n' == n then t else Target(m, s', n')
  {
    m[s := if n == 0 then m[s].(target0 := t) else m[s].(target1 := t)]
  }

  // ----- Rings ---------------------------------------------------------------

  function Next(i: nat, n: nat): nat { if i + 1 == n then 0 else i + 1 }

  /** The i-th field of c holds a link to the next field. */
  predicate Leads(m: Memory, c: seq<Link>, i: int) {
    0 <= i < |c| && IsField(m, c[i]) && Val(m, c[i]) == c[Next(i, |c|)]
  }

  /** c lists the fields of a circular list in order. */
  ghost predicate Cycle(m: Memory, c: seq<Link>) {
    && (forall i :: 0 <= i < |c| ==> Leads(m, c, i))
    && (forall i, j :: 0 <= i < j < |c| ==> c[i] != c[j])
  }

  /** The ring of t starts at its jmp_first; the others are jumps of blocks in `live`. */
  ghost predicate Ring(m: Memory, live: set<Ptr>, t: Ptr, c: seq<Link>) {
    && |c| > 0 && c[0] == To(t, 2) && Cycle(m, c)
    && (forall i :: 1 <= i < |c| ==> c[i].To? && c[i].n <= 1 && c[i].tb in live)
  }

  type Rings = map<Ptr, seq<Link>>

  ghost predicate InRing(rings: Rings, l: Link) { exists t :: t in rings && l in rings[t] }

  /** The rings of all linked blocks: separate, and holding every non-NULL jmp_next field. */
  ghost predicate RingsOk(m: Memory, rings: Rings) {
    && (forall t :: t in rings ==> t in m && Ring(m, rings.Keys, t, rings[t]))
    && (forall t, u, l :: t in rings && u in rings && l in rings[t] && l in rings[u] ==> t == u)
    && (forall s, n :: s in rings && n <= 1 && s in m ==> (Val(m, To(s, n)) != Null <==> InRing(rings, To(s, n))))
  }

  /** A block's jump is patched to t exactly when it is in t's ring.  `dying` blocks are exempt. */
  ghost predicate Patched(m: Memory, rings: Rings, dying: set<Ptr>) {
    forall s, n, t :: s in rings && s in m && s !in dying && n <= 1 ==>
      (Target(m, s, n) == Some(t) <==> t in rings && To(s, n) in rings[t])
  }

  /** c without its i-th field. */
  function Without(c: seq<Link>, i: nat): seq<Link>
    requires i < |c|
  {
    c[..i] + c[i + 1..]
  }

  /** Unlinking a field from a cycle, as tb_jmp_remove does once it has found the predecessor. */
  lemma CycleRemove(m: Memory, c: seq<Link>, i: nat)
    requires Cycle(m, c) && 1 <= i < |c|
    ensures Leads(m, c, i - 1) && Leads(m, c, i)
    ensures Cycle(SetVal(SetVal(m, c[i - 1], Val(m, c[i])), c[i], Null), Without(c, i))
  {
    assert Leads(m, c, i - 1) && Leads(m, c, i);
    var m1 := SetVal(m, c[i - 1], Val(m, c[i]));
    var m2 := SetVal(m1, c[i], Null);
    var d := Without(c, i);
    forall k | 0 <= k < |d| ensures Leads(m2, d, k) {
      var j := if k < i then k else k + 1;
      assert d[k] == c[j] && Leads(m, c, j) && c[j] != c[i];
      var k1 := Next(k, |d|);
      assert d[k1] == c[if k1 < i then k1 else k1 + 1];
      assert k != i - 1 ==> c[j] != c[i - 1];
    }
    forall k, k' | 0 <= k < k' < |d| ensures d[k] != d[k'] {
      assert d[k] == c[if k < i then k else k + 1] && d[k'] == c[if k' < i then k' else k' + 1];
    }
  }

  lemma CycleSame(m: Memory, m': Memory, c: seq<Link>)
    requires Cycle(m, c) && forall l :: l in c && IsField(m, l) ==> IsField(m', l) && Val(m', l) == Val(m, l)
    ensures Cycle(m', c)
  {
    forall i | 0 <= i < |c| ensures Leads(m', c, i) {
      assert Leads(m, c, i) && c[i] in c;
    }
  }

  lemma WithoutMembers(c: seq<Link>, i: nat)
    requires i < |c| && forall j, k :: 0 <= j < k < |c| ==> c[j] != c[k]
    ensures forall l :: l in Without(c, i) <==> l in c && l != c[i]
  {
    var d := Without(c, i);
    forall l | l in c && l != c[i] ensures l in d {
      var j :| 0 <= j < |c| && c[j] == l;
      assert d[if j < i then j else j - 1] == l;
    }
    forall l | l in d ensures l in c && l != c[i] {
      var k :| 0 <= k < |d| && d[k] == l;
      assert c[if k < i then k else k + 1] == l;
    }
  }

  /** Taking one jump out of one ring leaves all rings well formed. */
  lemma RemoveFromRing(m: Memory, rings: Rings, t: Ptr, i: nat)
    requires RingsOk(m, rings) && t in rings && 1 <= i < |rings[t]|
    ensures Leads(m, rings[t], i - 1) && Leads(m, rings[t], i)
    ensures var c := rings[t];
      RingsOk(SetVal(SetVal(m, c[i - 1], Val(m, c[i])), c[i], Null), rings[t := Without(c, i)])
  {
    var c := rings[t];
    assert Ring(m, rings.Keys, t, c);
    CycleRemove(m, c, i);
    WithoutMembers(c, i);
    var m1 := SetVal(m, c[i - 1], Val(m, c[i]));
    var m2 := SetVal(m1, c[i], Null);
    var rings' := rings[t := Without(c, i)];
    assert c[i - 1] in c && c[i] in c;
    forall u | u in rings' ensures u in m2 && Ring(m2, rings'.Keys, u, rings'[u]) {
      assert Ring(m, rings.Keys, u, rings[u]);
      if u == t {
        WithoutRing(m2, rings.Keys, t, c, i);
      } else {
        CycleSame(m, m2, rings[u]);
      }
    }
    forall s, n | s in rings' && n <= 1 && s in m2
      ensures Val(m2, To(s, n)) != Null <==> InRing(rings', To(s, n))
    {
      RemoveInRing(m, m2, rings, t, i, To(s, n));
    }
  }

  lemma WithoutRing(m: Memory, live: set<Ptr>, t: Ptr, c: seq<Link>, i: nat)
    requires 1 <= i < |c| && c[0] == To(t, 2) && Cycle(m, Without(c, i))
    requires forall j :: 1 <= j < |c| ==> c[j].To? && c[j].n <= 1 && c[j].tb in live
    ensures Ring(m, live, t, Without(c, i))
  {
    var d := Without(c, i);
    forall k | 1 <= k < |d| ensures d[k].To? && d[k].n <= 1 && d[k].tb in live {
      assert d[k] == c[if k < i then k else k + 1];
    }
  }

  lemma RemoveInRing(m: Memory, m2: Memory, rings: Rings, t: Ptr, i: nat, l: Link)
    requires RingsOk(m, rings) && t in rings && 1 <= i < |rings[t]| && IsField(m, l) && l.n <= 1 && l.tb in rings
    requires forall k :: k in Without(rings[t], i) <==> k in rings[t] && k != rings[t][i]
    requires Leads(m, rings[t], i - 1) && Leads(m, rings[t], i)
    requires m2 == SetVal(SetVal(m, rings[t][i - 1], Val(m, rings[t][i])), rings[t][i], Null)
    ensures Val(m2, l) != Null <==> InRing(rings[t := Without(rings[t], i)], l)
  {
    var c := rings[t];
    var rings' := rings[t := Without(c, i)];
    assert c[i] in c && c[i - 1] in c;
    assert Val(m, l) != Null <==> InRing(rings, l);
    if InRing(rings', l) {
      var u :| u in rings' && l in rings'[u];
      assert l in rings[u];
    }
    if InRing(rings, l) && l != c[i] {
      var u :| u in rings && l in rings[u];
      assert u in rings' && l in rings'[u];
    }
    assert Ring(m, rings.Keys, t, c);
    var k := Next(i, |c|);
    assert c[k].To?;
  }

  /** tb_add_jump pushes a free jump field at the front of the target's ring. */
  lemma AddToRing(m: Memory, rings: Rings, l: Link, t: Ptr)
    requires RingsOk(m, rings) && t in rings && IsField(m, l) && l.n <= 1 && l.tb in rings && Val(m, l) == Null
    ensures IsField(m, To(t, 2))
    ensures RingsOk(SetVal(SetVal(m, l, Val(m, To(t, 2))), To(t, 2), l), rings[t := [To(t, 2), l] + rings[t][1..]])
  {
    var c := rings[t];
    assert Ring(m, rings.Keys, t, c) && Leads(m, c, 0);
    assert !InRing(rings, l);
    var m2 := SetVal(SetVal(m, l, Val(m, To(t, 2))), To(t, 2), l);
    var d := [To(t, 2), l] + c[1..];
    var rings' := rings[t := d];
    PushMembers(c, l);
    forall u | u in rings' ensures u in m2 && Ring(m2, rings'.Keys, u, rings'[u]) {
      assert Ring(m, rings.Keys, u, rings[u]);
      if u == t {
        PushRing(m, m2, rings.Keys, t, c, l);
      } else {
        assert To(t, 2) !in rings[u] && l !in rings[u];
        CycleSame(m, m2, rings[u]);
      }
    }
    forall s, n | s in rings' && n <= 1 && s in m2
      ensures Val(m2, To(s, n)) != Null <==> InRing(rings', To(s, n))
    {
      AddInRing(m, m2, rings, l, t, d, To(s, n));
    }
  }

  lemma PushMembers(c: seq<Link>, l: Link)
    requires |c| > 0
    ensures c[0] in c && forall x :: x in [c[0], l] + c[1..] <==> x in c || x == l
  {
    assert c == [c[0]] + c[1..];
  }

  lemma AddInRing(m: Memory, m2: Memory, rings: Rings, l: Link, t: Ptr, d: seq<Link>, k: Link)
    requires RingsOk(m, rings) && t in rings && IsField(m, l) && IsField(m, To(t, 2)) && Val(m, To(t, 2)) != Null
    requires forall x :: x in d <==> x in rings[t] || x == l
    requires IsField(m, k) && k.n <= 1 && k.tb in rings
    requires m2 == SetVal(SetVal(m, l, Val(m, To(t, 2))), To(t, 2), l)
    ensures Val(m2, k) != Null <==> InRing(rings[t := d], k)
  {
    var rings' := rings[t := d];
    assert Val(m, k) != Null <==> InRing(rings, k);
    if k == l {
      assert t in rings' && k in rings'[t];
    } else {
      if InRing(rings, k) {
        var u :| u in rings && k in rings[u];
        assert u in rings' && k in rings'[u];
      }
      if InRing(rings', k) {
        var u :| u in rings' && k in rings'[u];
        assert u in rings && k in rings[u];
      }
    }
  }

  lemma PushRing(m: Memory, m2: Memory, live: set<Ptr>, t: Ptr, c: seq<Link>, l: Link)
    requires Ring(m, live, t, c) && IsField(m, l) && l.n <= 1 && l.tb in live && l !in c && IsField(m, To(t, 2))
    requires m2 == SetVal(SetVal(m, l, Val(m, To(t, 2))), To(t, 2), l)
    ensures Ring(m2, live, t, [To(t, 2), l] + c[1..])
  {
    var d := [To(t, 2), l] + c[1..];
    assert Leads(m, c, 0);
    forall k | 0 <= k < |d| ensures Leads(m2, d, k) {
      if k >= 2 {
        assert d[k] == c[k - 1] && Leads(m, c, k - 1) && c[k - 1] in c && c[k - 1] != c[0];
      }
      var k1 := Next(k, |d|);
      assert k1 >= 2 ==> d[k1] == c[k1 - 1];
    }
    forall j, k | 0 <= j < k < |d| ensures d[j] != d[k] {
      assert k >= 2 ==> d[k] == c[k - 1] && c[k - 1] in c;
      assert j >= 2 ==> d[j] == c[j - 1];
    }
    forall k | 1 <= k < |d| ensures d[k].To? && d[k].n <= 1 && d[k].tb in live {
      assert k >= 2 ==> d[k] == c[k - 1];
    }
  }

  /** Once t has no outgoing jumps and its incoming ones are reset, it can go. */
  lemma DropRing(m: Memory, m': Memory, rings: Rings, t: Ptr)
    requires RingsOk(m, rings) && t in rings && m'.Keys == m.Keys
    requires Val(m, To(t, 0)) == Null && Val(m, To(t, 1)) == Null
    requires forall l :: IsField(m, l) && l != To(t, 2) ==>
      Val(m', l) == if l in rings[t] then Null else Val(m, l)
    ensures RingsOk(m', rings - {t})
  {
    var rings' := rings - {t};
    assert To(t, 2) in rings[t] by { assert Ring(m, rings.Keys, t, rings[t]); }
    forall u | u in rings' ensures u in m' && Ring(m', rings'.Keys, u, rings'[u]) {
      assert Ring(m, rings.Keys, u, rings[u]);
      CycleSame(m, m', rings[u]);
      forall i | 1 <= i < |rings[u]| ensures rings[u][i].tb in rings' {
        assert rings[u][i] in rings[u] && InRing(rings, rings[u][i]);
      }
    }
    forall s, n | s in rings' && n <= 1 && s in m'
      ensures Val(m', To(s, n)) != Null <==> InRing(rings', To(s, n))
    {
      var k := To(s, n);
      assert Val(m, k) != Null <==> InRing(rings, k);
      if InRing(rings, k) && k !in rings[t] {
        var u :| u in rings && k in rings[u];
        assert u in rings' && k in rings'[u];
      }
    }
  }

  class JumpTable {
    var mem: Memory
    ghost var rings: Rings

    /** Rings are well formed and say exactly which jumps are patched. */
    ghost predicate Valid()
      reads this
    {
      RingsOk(mem, rings) && Patched(mem, rings, {})
    }

    constructor ()
      ensures Valid() && mem == map[] && rings == map[]
    {
      mem, rings := map[], map[];
    }

    /** The chaining fields as tb_link_page initialises them. */
    method Link(tb: Ptr)
      requires Valid() && tb !in rings
      modifies this
      ensures Valid() && rings == old(rings)[tb := [To(tb, 2)]]
    {
      mem := mem[tb := Jumps(Null, Null, To(tb, 2), None, None)];
      rings := rings[tb := [To(tb, 2)]];
      FreshRing(old(mem), old(rings), tb);
    }

    /** After tb_flush no block is linked any more; the fields are left as they are. */
    method Forget()
      modifies this
      ensures Valid() && rings == map[]
    {
      rings := map[];
    }

    /** tb_add_jump */
    method AddJump(tb: Ptr, n: nat, tbNext: Ptr)
      requires Valid() && tb in rings && tbNext in rings && n <= 1
      modifies this
      ensures Valid()
      ensures rings == if InRing(old(rings), To(tb, n)) then old(rings)
                       else old(rings)[tbNext := [To(tbNext, 2), To(tb, n)] + old(rings)[tbNext][1..]]
    {
      InMemory(mem, rings, tb);
      InMemory(mem, rings, tbNext);
      if Val(mem, To(tb, n)) == Null {
        AddJumpOk(mem, rings, tb, n, tbNext);
        mem := SetVal(mem, To(tb, n), Val(mem, To(tbNext, 2)));
        mem := SetVal(mem, To(tbNext, 2), To(tb, n));
        mem := Patch(mem, tb, n, Some(tbNext));
        rings := rings[tbNext := [To(tbNext, 2), To(tb, n)] + rings[tbNext][1..]];
      }
    }

    /**
      The walk of tb_jmp_remove: along the circular list from the jump field itself, through
      jmp_first of its target, to the field that leads to it.
     */
    method Predecessor(self: Link, ghost c: seq<Link>, ghost i: nat) returns (ptb: Link)
      requires Cycle(mem, c) && 1 <= i < |c| && c[i] == self
      ensures ptb == c[i - 1]
    {
      ptb := self;
      ghost var j: int := i;
      assert Leads(mem, c, i);
      while Val(mem, ptb) != self
        invariant 0 <= j < |c| && c[j] == ptb && Leads(mem, c, j)
        decreases if j >= i then |c| - j + i else i - j
      {
        assert Leads(mem, c, Next(j, |c|));
        ptb := Val(mem, ptb);
        j := Next(j, |c|);
      }
    }

    /** tb_jmp_remove, for a block that is about to go. */
    method JmpRemove(tb: Ptr, n: nat)
      requires RingsOk(mem, rings) && Patched(mem, rings, {tb}) && tb in rings && n <= 1
      modifies this
      ensures RingsOk(mem, rings) && Patched(mem, rings, {tb})
      ensures rings == RemoveLink(old(rings), To(tb, n)) && !InRing(rings, To(tb, n))
    {
      InMemory(mem, rings, tb);
      var self := To(tb, n);
      if Val(mem, self) != Null {
        ghost var t, i := Locate(mem, rings, self);
        var ptb := Predecessor(self, rings[t], i);
        RemoveFromRing(mem, rings, t, i);
        RemoveLinkIs(mem, rings, t, i);
        mem := SetVal(mem, ptb, Val(mem, self));
        mem := SetVal(mem, self, Null);
        rings := rings[t := Without(rings[t], i)];
        RemovePatched(old(mem), mem, old(rings), tb, n);
        InMemory(mem, rings, tb);
      } else {
        RemoveAbsent(rings, self);
      }
    }

    /** Unpatches and unlinks every jump that leads to tb. */
    method ResetIncoming(tb: Ptr)
      requires tb in rings && Ring(mem, rings.Keys, tb, rings[tb])
      modifies this`mem
      ensures Reset(old(mem), mem, set l | l in rings[tb] && l != To(tb, 2))
    {
      ghost var c := rings[tb];
      assert Leads(mem, c, 0);
      var l := Val(mem, To(tb, 2));
      ghost var k := 1;
      ghost var done := {};
      while l.n != 2
        invariant 1 <= k <= |c| && l == (if k < |c| then c[k] else c[0])
        invariant (forall f :: f in done <==> f in c[1..k]) && Reset(old(mem), mem, done)
        decreases |c| - k
      {
        assert Leads(old(mem), c, k);
        assert forall f :: f in c[1..k] ==> f != l;
        assert c[1..k + 1] == c[1..k] + [l];
        ResetStep(old(mem), mem, done, l);
        var next := Val(mem, l);
        mem := Patch(mem, l.tb, l.n, None);
        mem := SetVal(mem, l, Null);
        done := done + {l};
        l := next;
        k := k + 1;
      }
      assert c == [c[0]] + c[1..k];
      assert done == set l | l in rings[tb] && l != To(tb, 2);
    }

    /** The chaining part of tb_phys_invalidate: afterwards no linked block jumps to tb. */
    method Unlink(tb: Ptr)
      requires Valid() && tb in rings
      modifies this
      ensures Valid()
      ensures rings == RemoveLink(RemoveLink(old(rings), To(tb, 0)), To(tb, 1)) - {tb}
      ensures forall s, n :: s in rings && s in mem && n <= 1 ==> Target(mem, s, n) != Some(tb)
    {
      PatchedWeaken(mem, rings, {tb});
      JmpRemove(tb, 0);
      StillNull(rings, tb);
      JmpRemove(tb, 1);
      InMemory(mem, rings, tb);
      ghost var m2 := mem;
      ResetIncoming(tb);
      FinishUnlink(m2, mem, rings, tb);
      mem := SetVal(mem, To(tb, 2), To(tb, 2));  // fail safe
      rings := rings - {tb};
    }
  }

  lemma PatchedWeaken(m: Memory, rings: Rings, dying: set<Ptr>)
    requires Patched(m, rings, {})
    ensures Patched(m, rings, dying)
  {
  }

  lemma Locate(m: Memory, rings: Rings, l: Link) returns (t: Ptr, i: nat)
    requires RingsOk(m, rings) && InRing(rings, l) && l.To? && l.n <= 1
    ensures t in rings && 1 <= i < |rings[t]| && rings[t][i] == l && Cycle(m, rings[t])
  {
    t :| t in rings && l in rings[t];
    assert Ring(m, rings.Keys, t, rings[t]);
    i :| 0 <= i < |rings[t]| && rings[t][i] == l;
  }

  /** The fields `done` are cleared and their jumps unpatched; everything else is as in m. */
  ghost predicate Reset(m: Memory, m': Memory, done: set<Link>) {
    && m'.Keys == m.Keys
    && (forall f :: IsField(m, f) ==> Val(m', f) == if f in done then Null else Val(m, f))
    && (forall s, n :: s in m && n <= 1 ==> Target(m', s, n) == if To(s, n) in done then None else Target(m, s, n))
  }

  lemma ResetStep(m: Memory, m': Memory, done: set<Link>, l: Link)
    requires Reset(m, m', done) && IsField(m, l) && l.n <= 1
    ensures IsField(m', l) && Reset(m, SetVal(Patch(m', l.tb, l.n, None), l, Null), done + {l})
  {
  }

  lemma FinishUnlink(m: Memory, m': Memory, rings: Rings, t: Ptr)
    requires RingsOk(m, rings) && Patched(m, rings, {t}) && t in rings && t in m
    requires Val(m, To(t, 0)) == Null && Val(m, To(t, 1)) == Null
    requires Reset(m, m', set l | l in rings[t] && l != To(t, 2))
    ensures var m2 := SetVal(m', To(t, 2), To(t, 2));
      RingsOk(m2, rings - {t}) && Patched(m2, rings - {t}, {})
  {
    var m2 := SetVal(m', To(t, 2), To(t, 2));
    DropRing(m, m2, rings, t);
    DropPatched(m, m2, rings, t);
  }

  lemma RemovePatched(m: Memory, m': Memory, rings: Rings, tb: Ptr, n: nat)
    requires Patched(m, rings, {tb})
    requires m'.Keys == m.Keys && forall s, k :: s in m ==> Target(m', s, k) == Target(m, s, k)
    ensures Patched(m', RemoveLink(rings, To(tb, n)), {tb})
  {
    var rings' := RemoveLink(rings, To(tb, n));
    forall s, k, t | s in rings' && s in m' && s != tb && k <= 1
      ensures Target(m', s, k) == Some(t) <==> t in rings' && To(s, k) in rings'[t]
    {
      if t in rings {
        DropKeeps(rings[t], To(tb, n), To(s, k));
      }
    }
  }

  lemma StillNull(rings: Rings, tb: Ptr)
    requires !InRing(rings, To(tb, 0))
    ensures !InRing(RemoveLink(rings, To(tb, 1)), To(tb, 0))
  {
    var rings' := RemoveLink(rings, To(tb, 1));
    forall t | t in rings' ensures To(tb, 0) !in rings'[t] {
      DropKeeps(rings[t], To(tb, 1), To(tb, 0));
    }
  }

  lemma DropPatched(m: Memory, m': Memory, rings: Rings, t: Ptr)
    requires RingsOk(m, rings) && Patched(m, rings, {t}) && t in rings && m'.Keys == m.Keys
    requires forall s, n :: s in m && n <= 1 ==>
      Target(m', s, n) == if To(s, n) in rings[t] then None else Target(m, s, n)
    ensures Patched(m', rings - {t}, {})
  {
  }

  function RemoveLink(rings: Rings, l: Link): Rings { map t | t in rings :: Drop(rings[t], l) }

  lemma RemoveAbsent(rings: Rings, l: Link)
    requires !InRing(rings, l)
    ensures RemoveLink(rings, l) == rings
  {
    forall t | t in rings ensures Drop(rings[t], l) == rings[t] {
      assert l !in rings[t];
      DropAbsent(rings[t], l);
    }
  }

  lemma RemoveLinkIs(m: Memory, rings: Rings, t: Ptr, i: nat)
    requires RingsOk(m, rings) && t in rings && i < |rings[t]|
    ensures RemoveLink(rings, rings[t][i]) == rings[t := Without(rings[t], i)]
  {
    assert Ring(m, rings.Keys, t, rings[t]);
    DropAt(rings[t], i);
    forall u | u in rings && u != t ensures Drop(rings[u], rings[t][i]) == rings[u] {
      assert rings[t][i] in rings[t];
      DropAbsent(rings[u], rings[t][i]);
    }
  }

  lemma InMemory(m: Memory, rings: Rings, t: Ptr)
    requires RingsOk(m, rings) && t in rings
    ensures t in m && |rings[t]| > 0 && rings[t][0] == To(t, 2) && Ring(m, rings.Keys, t, rings[t])
    ensures forall n :: n <= 1 ==> (Val(m, To(t, n)) != Null <==> InRing(rings, To(t, n)))
  {
    assert Ring(m, rings.Keys, t, rings[t]);
  }

  lemma SameVals(m: Memory, m': Memory, rings: Rings)
    requires RingsOk(m, rings) && m'.Keys == m.Keys
    requires forall l :: IsField(m, l) ==> Val(m', l) == Val(m, l)
    ensures RingsOk(m', rings)
  {
    forall t | t in rings ensures t in m' && Ring(m', rings.Keys, t, rings[t]) {
      assert Ring(m, rings.Keys, t, rings[t]);
      CycleSame(m, m', rings[t]);
    }
  }

  lemma AddJumpOk(m: Memory, rings: Rings, tb: Ptr, n: nat, t: Ptr)
    requires RingsOk(m, rings) && Patched(m, rings, {}) && tb in rings && t in rings && n <= 1
    requires tb in m && t in m && Val(m, To(tb, n)) == Null && |rings[t]| > 0
    ensures var m1 := SetVal(m, To(tb, n), Val(m, To(t, 2)));
      var m3 := Patch(SetVal(m1, To(t, 2), To(tb, n)), tb, n, Some(t));
      var rings' := rings[t := [To(t, 2), To(tb, n)] + rings[t][1..]];
      RingsOk(m3, rings') && Patched(m3, rings', {})
  {
    InMemory(m, rings, tb);
    InMemory(m, rings, t);
    AddToRing(m, rings, To(tb, n), t);
    PushMembers(rings[t], To(tb, n));
    var m2 := SetVal(SetVal(m, To(tb, n), Val(m, To(t, 2))), To(t, 2), To(tb, n));
    var m3 := Patch(m2, tb, n, Some(t));
    var rings' := rings[t := [To(t, 2), To(tb, n)] + rings[t][1..]];
    SameVals(m2, m3, rings');
    AddPatched(m, m3, rings, rings', tb, n, t);
  }

  lemma FreshRing(m: Memory, rings: Rings, tb: Ptr)
    requires RingsOk(m, rings) && Patched(m, rings, {}) && tb !in rings
    ensures var m' := m[tb := Jumps(Null, Null, To(tb, 2), None, None)];
      var rings' := rings[tb := [To(tb, 2)]];
      RingsOk(m', rings') && Patched(m', rings', {})
  {
    var m' := m[tb := Jumps(Null, Null, To(tb, 2), None, None)];
    var rings' := rings[tb := [To(tb, 2)]];
    forall t, l | t in rings && l in rings[t] ensures l.To? && l.tb != tb {
      NotOurs(m, rings, t, tb);
    }
    forall u | u in rings' ensures u in m' && Ring(m', rings'.Keys, u, rings'[u]) {
      if u == tb {
        assert Leads(m', [To(tb, 2)], 0);
      } else {
        assert Ring(m, rings.Keys, u, rings[u]);
        CycleSame(m, m', rings[u]);
      }
    }
    forall s, n | s in rings' && n <= 1 && s in m'
      ensures Val(m', To(s, n)) != Null <==> InRing(rings', To(s, n))
    {
      FreshInRing(rings, tb, To(s, n));
    }
  }

  lemma FreshInRing(rings: Rings, tb: Ptr, k: Link)
    requires tb !in rings && k.To? && k.n <= 1 && forall t, l :: t in rings && l in rings[t] ==> l.To? && l.tb != tb
    ensures InRing(rings[tb := [To(tb, 2)]], k) <==> InRing(rings, k)
    ensures k.tb == tb ==> !InRing(rings, k)
  {
    var rings' := rings[tb := [To(tb, 2)]];
    if InRing(rings', k) {
      var u :| u in rings' && k in rings'[u];
      assert u in rings && k in rings[u];
    }
    if InRing(rings, k) {
      var u :| u in rings && k in rings[u];
      assert u in rings' && k in rings'[u];
    }
  }

  lemma NotOurs(m: Memory, rings: Rings, t: Ptr, tb: Ptr)
    requires RingsOk(m, rings) && t in rings && tb !in rings
    ensures forall l :: l in rings[t] ==> l.To? && l.tb != tb
  {
    assert Ring(m, rings.Keys, t, rings[t]);
  }

  lemma AddPatched(m: Memory, m': Memory, rings: Rings, rings': Rings, tb: Ptr, n: nat, t: Ptr)
    requires Patched(m, rings, {}) && t in rings && rings'.Keys == rings.Keys && m'.Keys == m.Keys && n <= 1
    requires forall u :: u in rings && u != t ==> rings'[u] == rings[u]
    requires forall l :: l in rings'[t] <==> l in rings[t] || l == To(tb, n)
    requires !InRing(rings, To(tb, n))
    requires forall s, k :: s in m && k <= 1 ==>
      Target(m', s, k) == if s == tb && k == n then Some(t) else Target(m, s, k)
    ensures Patched(m', rings', {})
  {
  }
}
