/**
  KVM memory slots (kvm-all.c) as a set of disjoint guest ranges: what one splitting step does
  to the guest-to-RAM map, and how far the workaround for old kernels departs from it.
 */
module KvmSlotModel {
  const PAGE: nat := 4096
  const IO_MEM_ROM: nat := 8
  const IO_MEM_UNASSIGNED: nat := 16

  /** Guest addresses [start, start + size) are backed by RAM from phys on. */
  datatype Slot = Slot(start: nat, size: nat, phys: int)

  predicate Contains(s: Slot, a: int) { s.start <= a < s.start + s.size }

  predicate At(s: Slot, a: int, r: int) { Contains(s, a) && r == s.phys + (a - s.start) }

  /** Guest address a is backed by RAM address r. */
  ghost predicate Maps(live: set<Slot>, a: int, r: int) { exists s :: s in live && At(s, a, r) }

  predicate Apart(s: Slot, t: Slot) { s.start + s.size <= t.start || t.start + t.size <= s.start }

  ghost predicate Disjoint(live: set<Slot>) {
    && (forall s :: s in live ==> s.size > 0)
    && (forall s, t :: s in live && t in live && s != t ==> Apart(s, t))
  }

  /** The overlap test of kvm_lookup_overlapping_slot, which never adds. */
  predicate Overlaps(s: Slot, start: nat, size: nat) {
    if s.size == 0 then false
    else if start <= s.start then s.start - start < size
    else start - s.start < s.size
  }

  /** For a nonempty range the test is overlap; for an empty one it asks for the inside of the slot. */
  lemma OverlapMeaning(s: Slot, start: nat, size: nat)
    requires s.size > 0
    ensures size > 0 ==> (Overlaps(s, start, size) <==> exists a: int :: Contains(s, a) && start <= a < start + size)
    ensures size == 0 ==> (Overlaps(s, start, size) <==> s.start < start < s.start + s.size)
  {
    if size > 0 && Overlaps(s, start, size) {
      var a := if start <= s.start then s.start else start;
      assert Contains(s, a) && start <= a < start + size;
    }
  }

  ghost function Over(live: set<Slot>, start: nat, size: nat): set<Slot> {
    set s | s in live && Overlaps(s, start, size)
  }

  /** mem is an overlapping slot with the lowest start. */
  ghost predicate Lowest(live: set<Slot>, start: nat, size: nat, mem: Slot) {
    mem in Over(live, start, size) && forall s :: s in Over(live, start, size) ==> mem.start <= s.start
  }

  // ----- One splitting step --------------------------------------------------

  predicate NeedsPrefix(mem: Slot, start: nat) { mem.start < start }

  predicate NeedsSuffix(mem: Slot, start: nat, size: nat) { mem.start + mem.size > start + size }

  function Prefix(mem: Slot, start: nat): Slot
    requires NeedsPrefix(mem, start)
  {
    Slot(mem.start, start - mem.start, mem.phys)
  }

  function Suffix(mem: Slot, start: nat, size: nat): Slot
    requires NeedsSuffix(mem, start, size)
  {
    var delta := start + size - mem.start;
    Slot(start + size, mem.size - delta, mem.phys + delta)
  }

  ghost function WithPrefix(live: set<Slot>, start: nat, mem: Slot): set<Slot> {
    live - {mem} + if NeedsPrefix(mem, start) then {Prefix(mem, start)} else {}
  }

  /** The overlapping slot mem is replaced by what sticks out of the range on either side. */
  ghost function Split(live: set<Slot>, start: nat, size: nat, mem: Slot): set<Slot> {
    WithPrefix(live, start, mem) + if NeedsSuffix(mem, start, size) then {Suffix(mem, start, size)} else {}
  }

  lemma SplitMember(live: set<Slot>, start: nat, size: nat, mem: Slot, s: Slot)
    requires s in Split(live, start, size, mem)
    ensures (s in live && s != mem) || (NeedsPrefix(mem, start) && s == Prefix(mem, start)) ||
      (NeedsSuffix(mem, start, size) && s == Suffix(mem, start, size))
  {
  }

  lemma SplitDisjoint(live: set<Slot>, start: nat, size: nat, mem: Slot)
    requires Disjoint(live) && mem in live && Overlaps(mem, start, size)
    ensures Disjoint(Split(live, start, size, mem)) && Disjoint(WithPrefix(live, start, mem))
    ensures Over(Split(live, start, size, mem), start, size) == Over(live, start, size) - {mem}
    ensures NeedsPrefix(mem, start) ==> Prefix(mem, start) !in live - {mem}
    ensures NeedsSuffix(mem, start, size) ==> Suffix(mem, start, size) !in WithPrefix(live, start, mem)
  {
    assert forall s :: s in live && s != mem ==> Apart(s, mem);
  }

  lemma SplitMaps(live: set<Slot>, start: nat, size: nat, mem: Slot, a: int, r: int)
    requires Disjoint(live) && mem in live && Overlaps(mem, start, size)
    ensures Maps(Split(live, start, size, mem), a, r) <==>
            Maps(live, a, r) && !(Contains(mem, a) && start <= a < start + size)
  {
    var live' := Split(live, start, size, mem);
    if s :| s in live' && At(s, a, r) {
      if s in live && s != mem {
        assert Apart(s, mem);
      } else {
        assert At(mem, a, r);
      }
    }
    if s :| s in live && At(s, a, r) {
      if !(Contains(mem, a) && start <= a < start + size) {
        if s != mem {
          assert s in live';
        } else if a < start {
          assert Prefix(mem, start) in live' && At(Prefix(mem, start), a, r);
        } else {
          assert Suffix(mem, start, size) in live' && At(Suffix(mem, start, size), a, r);
        }
      }
    }
  }

  /** A split that leaves a piece on both sides has dealt with the only overlapping slot. */
  lemma BothSides(live: set<Slot>, start: nat, size: nat, mem: Slot)
    requires Disjoint(live) && mem in live && Overlaps(mem, start, size) && NeedsPrefix(mem, start)
    requires NeedsSuffix(mem, start, size)
    ensures Over(live, start, size) == {mem}
  {
    assert forall s :: s in Over(live, start, size) && s != mem ==> Apart(s, mem);
  }

  lemma SplitCount(live: set<Slot>, start: nat, size: nat, mem: Slot)
    requires Disjoint(live) && mem in live && Overlaps(mem, start, size)
    ensures |WithPrefix(live, start, mem)| <= |live|
    ensures var live' := Split(live, start, size, mem);
      |live'| <= |live| + if Over(live', start, size) == {} then 1 else 0
    ensures |Over(Split(live, start, size, mem), start, size)| < |Over(live, start, size)|
  {
    SplitDisjoint(live, start, size, mem);
    assert mem in Over(live, start, size);
    assert |live - {mem}| == |live| - 1;
    if NeedsPrefix(mem, start) && NeedsSuffix(mem, start, size) {
      BothSides(live, start, size, mem);
    }
  }

  // ----- Whole runs of the loop ----------------------------------------------

  /** The range of the call has been cleared only inside [start, start + size). */
  ghost predicate Cleared(live0: set<Slot>, live: set<Slot>, start: int, size: nat) {
    && (forall a, r :: Maps(live, a, r) ==> Maps(live0, a, r))
    && (forall a, r :: Maps(live0, a, r) && !(start <= a < start + size) ==> Maps(live, a, r))
  }

  lemma SplitCleared(live0: set<Slot>, live: set<Slot>, start: nat, size: nat, mem: Slot)
    requires Disjoint(live) && mem in live && Overlaps(mem, start, size) && Cleared(live0, live, start, size)
    ensures Cleared(live0, Split(live, start, size, mem), start, size)
  {
    forall a, r ensures Maps(Split(live, start, size, mem), a, r) <==>
      Maps(live, a, r) && !(Contains(mem, a) && start <= a < start + size) {
      SplitMaps(live, start, size, mem, a, r);
    }
  }

  /** After a split of the lowest overlapping slot, no slot contains the start of the range. */
  lemma StartUncovered(live: set<Slot>, start: nat, size: nat, mem: Slot)
    requires Disjoint(live) && Lowest(live, start, size, mem) && size > 0
    ensures forall s :: s in Split(live, start, size, mem) ==> !Contains(s, start)
  {
    forall s | s in Split(live, start, size, mem) ensures !Contains(s, start) {
      SplitMember(live, start, size, mem, s);
      assert s in live && s != mem ==> Apart(s, mem);
      assert s in live && Contains(s, start) ==> s in Over(live, start, size);
    }
  }

  /** Nothing is left in the range once no slot overlaps it. */
  lemma NothingInside(live: set<Slot>, start: nat, size: nat, a: int, r: int)
    requires Disjoint(live) && Over(live, start, size) == {} && start <= a < start + size
    ensures !Maps(live, a, r)
  {
    forall s | s in live ensures !At(s, a, r) {
      assert s !in Over(live, start, size);
    }
  }

  lemma AddMaps(live: set<Slot>, s: Slot, a: int, r: int)
    ensures Maps(live + {s}, a, r) <==> Maps(live, a, r) || At(s, a, r)
  {
    if t :| t in live && At(t, a, r) {
      assert t in live + {s};
    }
    assert s in live + {s};
  }

  lemma AddDisjoint(live: set<Slot>, s: Slot)
    requires Disjoint(live) && s.size > 0 && Over(live, s.start, s.size) == {}
    ensures Disjoint(live + {s}) && s !in live
  {
    forall t | t in live ensures Apart(s, t) && t != s {
      assert t !in Over(live, s.start, s.size);
    }
  }

  // ----- The call ------------------------------------------------------------

  predicate IsRam(phys: nat) { phys % PAGE < IO_MEM_UNASSIGNED }

  /** phys_offset & ~IO_MEM_ROM */
  function ClearRom(phys: nat): nat { if phys / IO_MEM_ROM % 2 == 1 then phys - IO_MEM_ROM else phys }

  /** [start + kept, start + size) maps to the new RAM, or to nothing; the rest is as before. */
  ghost predicate Remapped(live: set<Slot>, live': set<Slot>, start: nat, size: nat, phys: nat, kept: nat) {
    forall a, r :: Maps(live', a, r) <==>
      if start + kept <= a < start + size then IsRam(phys) && r == ClearRom(phys) + (a - start) else Maps(live, a, r)
  }

  /** What kvm_set_phys_mem is for. */
  ghost predicate ExactlyMapped(live: set<Slot>, live': set<Slot>, start: nat, size: nat, phys: nat) {
    Remapped(live, live', start, size, phys, 0)
  }

  /** How much of the range the workaround passes over: slots that start where the rest of the range starts. */
  ghost function Consumed(live: set<Slot>, start: nat, size: nat): (k: nat)
    ensures k <= size && (size > 0 ==> k < size)
    decreases size
  {
    if exists s :: s in live && s.start == start && 0 < s.size < size then
      var s :| s in live && s.start == start && 0 < s.size < size;
      s.size + Consumed(live, start + s.size, size - s.size)
    else 0
  }

  lemma ConsumedStep(live: set<Slot>, start: nat, size: nat, mem: Slot)
    requires Disjoint(live) && mem in live && mem.start == start && mem.size < size
    ensures Consumed(live, start, size) == mem.size + Consumed(live, start + mem.size, size - mem.size)
  {
    assert forall s :: s in live && s != mem ==> Apart(s, mem);
  }

  lemma ConsumedDone(live: set<Slot>, start: nat, size: nat, mem: Slot)
    requires Disjoint(live) && Lowest(live, start, size, mem) && !(mem.start == start && mem.size < size)
    ensures Consumed(live, start, size) == 0
  {
    forall s | s in live ensures !(s.start == start && 0 < s.size < size) {
      assert s != mem ==> Apart(s, mem);
      assert s.start == start && 0 < s.size < size ==> s in Over(live, start, size);
    }
  }

  lemma ConsumedNone(live: set<Slot>, start: nat, size: nat)
    requires Over(live, start, size) == {}
    ensures Consumed(live, start, size) == 0
  {
    forall s | s in live ensures !(s.start == start && 0 < s.size < size) {
      assert s !in Over(live, start, size);
    }
  }

  /** The part the workaround consumes is fully covered by existing slots. */
  lemma {:induction false} ConsumedIsCovered(live: set<Slot>, start: nat, size: nat, a: int)
    requires start <= a < start + Consumed(live, start, size)
    ensures Covered(live, a)
    decreases size
  {
    var s :| s in live && s.start == start && 0 < s.size < size &&
      Consumed(live, start, size) == s.size + Consumed(live, start + s.size, size - s.size);
    if a < start + s.size {
      assert At(s, a, s.phys + (a - start));
      assert Maps(live, a, s.phys + (a - start));
    } else {
      ConsumedIsCovered(live, start + s.size, size - s.size, a);
    }
  }

  ghost predicate Covered(live: set<Slot>, a: int) { exists r :: Maps(live, a, r) }

  /** Guest address a has the backing that the call asks for. */
  ghost predicate AsAsked(live: set<Slot>, start: nat, phys: nat, a: int) {
    Maps(live, a, ClearRom(phys) + (a - start))
  }

  /** With the workaround the mapping is exact iff the consumed part was mapped as asked beforehand. */
  lemma ExactIff(live: set<Slot>, live': set<Slot>, start: nat, size: nat, phys: nat)
    requires Disjoint(live) && IsRam(phys) && Remapped(live, live', start, size, phys, Consumed(live, start, size))
    ensures ExactlyMapped(live, live', start, size, phys) <==>
            forall a :: start <= a < start + Consumed(live, start, size) ==> AsAsked(live, start, phys, a)
  {
    var kept := Consumed(live, start, size);
    if forall a :: start <= a < start + kept ==> AsAsked(live, start, phys, a) {
      forall a, r ensures Maps(live', a, r) <==>
        if start <= a < start + size then r == ClearRom(phys) + (a - start) else Maps(live, a, r)
      {
        if start <= a < start + kept {
          assert AsAsked(live, start, phys, a);
          MapsFunction(live, a, r, ClearRom(phys) + (a - start));
        }
      }
    }
    if ExactlyMapped(live, live', start, size, phys) {
      forall a | start <= a < start + kept ensures AsAsked(live, start, phys, a) {
        assert Maps(live', a, ClearRom(phys) + (a - start));
      }
    }
  }

  /** The workaround does lose the mapping that is asked for: one page mapped elsewhere, then two asked for. */
  lemma WorkaroundKeepsOldBacking()
    ensures exists live: set<Slot>, start: nat, size: nat, phys: nat ::
      Disjoint(live) && start % PAGE == 0 && IsRam(phys) && Consumed(live, start, size) > 0 &&
      forall live' :: Remapped(live, live', start, size, phys, Consumed(live, start, size)) ==>
                      !ExactlyMapped(live, live', start, size, phys)
  {
    var mem := Slot(0, PAGE, 0);
    var live := {mem};
    var phys := 16 * PAGE;
    ConsumedStep(live, 0, 2 * PAGE, mem);
    assert !AsAsked(live, 0, phys, 0);
    forall live' | Remapped(live, live', 0, 2 * PAGE, phys, Consumed(live, 0, 2 * PAGE))
      ensures !ExactlyMapped(live, live', 0, 2 * PAGE, phys)
    {
      ExactIff(live, live', 0, 2 * PAGE, phys);
    }
    assert Disjoint(live) && IsRam(phys) && 0 % PAGE == 0 && Consumed(live, 0, 2 * PAGE) > 0;
  }

  /** The guest-to-RAM map is a function. */
  lemma MapsFunction(live: set<Slot>, a: int, r: int, r': int)
    requires Disjoint(live) && Maps(live, a, r')
    ensures Maps(live, a, r) <==> r == r'
  {
    var t :| t in live && At(t, a, r');
    forall s | s in live && At(s, a, r) ensures s == t {
      assert s == t || Apart(s, t);
    }
  }
}
