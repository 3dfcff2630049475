/** The slot array of KVMState and kvm_set_phys_mem (kvm-all.c). */
module KvmSlots {
  import opened KvmSlotModel

  const SLOTS: nat := 32

  /** Slots 8 to 11 are KVM's own. */
  predicate Private(i: int) { 8 <= i < 12 }

  const ALLOCATABLE: nat := 28

  ghost function LiveOf(ss: seq<Slot>): set<Slot> { set i | 0 <= i < |ss| && ss[i].size > 0 :: ss[i] }

  ghost predicate Good(ss: seq<Slot>) {
    && |ss| == SLOTS
    && (forall i :: 0 <= i < |ss| && Private(i) ==> ss[i].size == 0)
    && (forall i, j :: 0 <= i < j < |ss| && ss[i].size > 0 && ss[j].size > 0 ==> Apart(ss[i], ss[j]))
  }

  lemma GoodDisjoint(ss: seq<Slot>)
    requires Good(ss)
    ensures Disjoint(LiveOf(ss))
  {
  }

  lemma Freed(ss: seq<Slot>, i: nat)
    requires Good(ss) && i < |ss| && ss[i].size > 0
    ensures Good(ss[i := ss[i].(size := 0)]) && LiveOf(ss[i := ss[i].(size := 0)]) == LiveOf(ss) - {ss[i]}
    ensures ss[i] in LiveOf(ss)
  {
    var ss' := ss[i := ss[i].(size := 0)];
    forall s | s in LiveOf(ss) && s != ss[i] ensures s in LiveOf(ss') {
      var j :| 0 <= j < |ss| && ss[j].size > 0 && ss[j] == s;
      assert ss'[j] == s;
    }
    forall s | s in LiveOf(ss') ensures s in LiveOf(ss) && s != ss[i] {
      var j :| 0 <= j < |ss'| && ss'[j].size > 0 && ss'[j] == s;
      assert ss[j] == s && j != i;
      assert Apart(ss[i], ss[j]);
    }
  }

  lemma Placed(ss: seq<Slot>, i: nat, s: Slot)
    requires Good(ss) && i < |ss| && !Private(i) && ss[i].size == 0 && s.size > 0
    requires Over(LiveOf(ss), s.start, s.size) == {}
    ensures Good(ss[i := s]) && LiveOf(ss[i := s]) == LiveOf(ss) + {s} && s !in LiveOf(ss)
  {
    var ss' := ss[i := s];
    GoodDisjoint(ss);
    AddDisjoint(LiveOf(ss), s);
    forall t | t in LiveOf(ss) + {s} ensures t in LiveOf(ss') {
      if t != s {
        var j :| 0 <= j < |ss| && ss[j].size > 0 && ss[j] == t;
        assert ss'[j] == t;
      } else {
        assert ss'[i] == t;
      }
    }
    forall j | 0 <= j < |ss| && j != i && ss[j].size > 0 ensures Apart(ss[j], s) {
      assert ss[j] in LiveOf(ss) + {s} && s in LiveOf(ss) + {s};
    }
  }

  function PrivateBelow(n: nat): nat { if n <= 8 then 0 else if n <= 12 then n - 8 else 4 }

  ghost predicate AllInUse(ss: seq<Slot>, n: nat) {
    forall i :: 0 <= i < n && i < |ss| && !Private(i) ==> ss[i].size > 0
  }

  /** If the first n allocatable slots are all in use, there are that many live slots. */
  lemma {:induction false} InUse(ss: seq<Slot>, n: nat)
    requires Good(ss) && n <= |ss| && AllInUse(ss, n)
    ensures |LiveOf(ss[..n])| == n - PrivateBelow(n)
  {
    if n == 0 {
      assert LiveOf(ss[..0]) == {};
    } else {
      var m := n - 1;
      InUse(ss, m);
      if Private(m) {
        SameLive(ss, m);
      } else {
        MoreLive(ss, m);
      }
    }
  }

  lemma SameLive(ss: seq<Slot>, m: nat)
    requires m < |ss| && ss[m].size == 0
    ensures LiveOf(ss[..m + 1]) == LiveOf(ss[..m])
  {
    var a, b := ss[..m + 1], ss[..m];
    forall s | s in LiveOf(b) ensures s in LiveOf(a) {
      var j :| 0 <= j < m && b[j].size > 0 && b[j] == s;
      assert a[j] == s;
    }
  }

  lemma MoreLive(ss: seq<Slot>, m: nat)
    requires Good(ss) && m < |ss| && ss[m].size > 0
    ensures LiveOf(ss[..m + 1]) == LiveOf(ss[..m]) + {ss[m]} && ss[m] !in LiveOf(ss[..m])
  {
    var a, b := ss[..m + 1], ss[..m];
    forall s | s in LiveOf(b) + {ss[m]} ensures s in LiveOf(a) {
      if s in LiveOf(b) {
        var j :| 0 <= j < m && b[j].size > 0 && b[j] == s;
        assert a[j] == s;
      } else {
        assert a[m] == s;
      }
    }
    forall s | s in LiveOf(b) ensures s != ss[m] {
      var j :| 0 <= j < m && b[j].size > 0 && b[j] == s;
      assert Apart(ss[j], ss[m]);
    }
  }

  lemma Room(ss: seq<Slot>)
    requires Good(ss) && AllInUse(ss, |ss|)
    ensures |LiveOf(ss)| == ALLOCATABLE
  {
    InUse(ss, |ss|);
    assert ss[..|ss|] == ss;
  }

  /** Two disjoint slots do not overlap. */
  lemma NotOver(live: set<Slot>, s: Slot)
    requires Disjoint(live + {s}) && s !in live
    ensures Over(live, s.start, s.size) == {} && s.size > 0
  {
    assert s in live + {s};
    forall t | t in live ensures !Overlaps(t, s.start, s.size) {
      assert t in live + {s} && t != s;
      assert Apart(t, s);
    }
  }

  /** The range lies in the slot and is mapped there as asked. */
  predicate Fits(mem: Slot, start: nat, size: nat, phys: int, phys0: nat) {
    IsRam(phys0) && start >= mem.start && start + size <= mem.start + mem.size && phys - start == mem.phys - mem.start
  }

  /** A slot that covers the range and maps it from RAM address base on. */
  ghost predicate InPlace(live: set<Slot>, start: nat, size: nat, base: int) {
    exists s :: s in live && s.start <= start && start + size <= s.start + s.size && base - start == s.phys - s.start
  }

  /** Such a slot is the one that the lookup finds. */
  lemma CoverIsFound(live: set<Slot>, start: nat, size: nat, base: int)
    requires Disjoint(live) && size > 0 && InPlace(live, start, size, base)
    ensures Over(live, start, size) != {}
    ensures forall mem :: Lowest(live, start, size, mem) ==>
      mem.start <= start && start + size <= mem.start + mem.size && base - start == mem.phys - mem.start
  {
    var s :| s in live && s.start <= start && start + size <= s.start + s.size && base - start == s.phys - s.start;
    assert Contains(s, start);
    assert s in Over(live, start, size);
    forall mem | Lowest(live, start, size, mem) ensures mem == s {
      assert mem != s ==> Apart(mem, s);
    }
  }

  // ----- The state of the loop of kvm_set_phys_mem ---------------------------

  /** One call: what it asks for, where it started from, and how much the workaround will consume. */
  datatype Call = Call(live: set<Slot>, start: nat, size: nat, phys: nat, kept: nat)

  /** The call asks for what is there already. */
  ghost predicate Nothing(c: Call) {
    c.size > 0 && IsRam(c.phys) && InPlace(c.live, c.start, c.size, ClearRom(c.phys))
  }

  ghost function Kept(live: set<Slot>, broken: bool, start: nat, size: nat, phys: nat): nat {
    if broken && IsRam(phys) then Consumed(live, start, size) else 0
  }

  ghost predicate Untouched(c: Call, broken: bool, live: set<Slot>, start: nat, size: nat) {
    live == c.live && c.kept == start - c.start + Kept(live, broken, start, size, c.phys)
  }

  ghost predicate Splitting(c: Call, live: set<Slot>, start: nat, size: nat) {
    && c.kept == start - c.start && Cleared(c.live, live, start, size)
    && (if size > 0 then forall s :: s in live ==> !Contains(s, start) else Over(live, start, size) == {})
  }

  ghost predicate Looping(c: Call, broken: bool, live: set<Slot>, start: nat, size: nat, phys: int) {
    && Disjoint(live) && Disjoint(c.live) && c.start <= start && start + size == c.start + c.size
    && phys - start == ClearRom(c.phys) - c.start
    && (Untouched(c, broken, live, start, size) || Splitting(c, live, start, size))
    && |live| <= |c.live| + if Over(live, start, size) == {} then 1 else 0
  }

  lemma LoopSplits(c: Call, broken: bool, live: set<Slot>, start: nat, size: nat, phys: int, mem: Slot)
    requires Looping(c, broken, live, start, size, phys) && Lowest(live, start, size, mem)
    requires !(broken && mem.start == start && mem.size < size && IsRam(c.phys))
    ensures Looping(c, broken, Split(live, start, size, mem), start, size, phys)
    ensures |Over(Split(live, start, size, mem), start, size)| < |Over(live, start, size)|
  {
    var live' := Split(live, start, size, mem);
    SplitDisjoint(live, start, size, mem);
    SplitCount(live, start, size, mem);
    if Untouched(c, broken, live, start, size) {
      if broken && IsRam(c.phys) {
        ConsumedDone(live, start, size, mem);
      }
      assert Cleared(c.live, live, start, size);
    }
    SplitCleared(c.live, live, start, size, mem);
    if size > 0 {
      StartUncovered(live, start, size, mem);
    } else {
      OnlyOne(live, start, mem);
    }
  }

  /** While some slot overlaps there are no more slots than at the start of the call. */
  lemma LoopRoom(c: Call, broken: bool, live: set<Slot>, start: nat, size: nat, phys: int, mem: Slot)
    requires Looping(c, broken, live, start, size, phys) && Lowest(live, start, size, mem)
    ensures mem in live && Overlaps(mem, start, size) && |live| <= |c.live|
  {
  }

  lemma OnlyOne(live: set<Slot>, start: nat, mem: Slot)
    requires Disjoint(live) && mem in live && Overlaps(mem, start, 0)
    ensures Over(live, start, 0) == {mem}
  {
    BothSides(live, start, 0, mem);
  }

  /** The workaround passes over a slot that starts where the range starts. */
  lemma LoopConsumes(c: Call, broken: bool, live: set<Slot>, start: nat, size: nat, phys: int, mem: Slot,
                     start': nat, size': nat, phys': int)
    requires Looping(c, broken, live, start, size, phys) && Lowest(live, start, size, mem)
    requires broken && mem.start == start && mem.size < size && IsRam(c.phys)
    requires start' == start + mem.size && size' == size - mem.size && phys' == phys + mem.size
    ensures Looping(c, broken, live, start', size', phys') && |Over(live, start', size')| < |Over(live, start, size)|
  {
    assert Contains(mem, start);
    assert Untouched(c, broken, live, start, size);
    ConsumedStep(live, start, size, mem);
    var next := Over(live, start', size');
    assert forall s :: s in live && s != mem ==> Apart(s, mem);
    assert next <= Over(live, start, size) - {mem};
    SmallerSet(next, Over(live, start, size), mem);
  }

  lemma SmallerSet(a: set<Slot>, b: set<Slot>, x: Slot)
    requires a <= b - {x} && x in b
    ensures |a| < |b|
  {
    var rest := b - {x} - a;
    assert b == a + rest + {x};
  }

  /** The call returns early: the range lies in a slot that maps it as asked. */
  lemma LoopReturns(c: Call, broken: bool, live: set<Slot>, start: nat, size: nat, phys: int, mem: Slot)
    requires Looping(c, broken, live, start, size, phys) && Lowest(live, start, size, mem) && IsRam(c.phys)
    requires mem.start <= start && start + size <= mem.start + mem.size && phys - start == mem.phys - mem.start
    ensures live == c.live && Remapped(c.live, live, c.start, c.size, c.phys, c.kept)
  {
    assert Overlaps(mem, start, size) && mem in live;
    assert size > 0 ==> Contains(mem, start);
    assert Over(live, start, size) != {};
    assert Untouched(c, broken, live, start, size);
    if broken {
      ConsumedDone(live, start, size, mem);
    }
    forall a, r | start <= a < start + size ensures Maps(live, a, r) <==> r == ClearRom(c.phys) + (a - c.start) {
      var r' := ClearRom(c.phys) + (a - c.start);
      assert At(mem, a, r') && Maps(live, a, r');
      MapsFunction(live, a, r, r');
    }
  }

  /** The loop has ended; what remains is to register the rest of the range, if it is RAM. */
  lemma LoopEnds(c: Call, broken: bool, live: set<Slot>, start: nat, size: nat, phys: int)
    requires Looping(c, broken, live, start, size, phys) && Over(live, start, size) == {}
    ensures (size == 0 || !IsRam(c.phys)) ==> Remapped(c.live, live, c.start, c.size, c.phys, c.kept)
    ensures size > 0 && IsRam(c.phys) ==>
      Remapped(c.live, live + {Slot(start, size, phys)}, c.start, c.size, c.phys, c.kept)
  {
    ConsumedNone(live, start, size);
    assert start == c.start + c.kept && Cleared(c.live, live, start, size);
    forall a, r ensures start <= a < start + size ==> !Maps(live, a, r) {
      if start <= a < start + size {
        NothingInside(live, start, size, a, r);
      }
    }
    var s := Slot(start, size, phys);
    forall a, r ensures Maps(live + {s}, a, r) <==> Maps(live, a, r) || At(s, a, r) {
      AddMaps(live, s, a, r);
    }
  }

  lemma SplitReady(ss: seq<Slot>, start: nat, size: nat, mem: Slot)
    requires Good(ss) && mem in LiveOf(ss) && Overlaps(mem, start, size)
    ensures var live := LiveOf(ss);
      && (NeedsPrefix(mem, start) ==> Prefix(mem, start) !in live - {mem})
      && (NeedsPrefix(mem, start) ==> Disjoint(live - {mem} + {Prefix(mem, start)}))
      && (NeedsSuffix(mem, start, size) ==> Suffix(mem, start, size) !in WithPrefix(live, start, mem) &&
                                            Disjoint(WithPrefix(live, start, mem) + {Suffix(mem, start, size)}))
      && |live - {mem}| < |live| && |WithPrefix(live, start, mem)| <= |live|
  {
    GoodDisjoint(ss);
    SplitDisjoint(LiveOf(ss), start, size, mem);
    SplitCount(LiveOf(ss), start, size, mem);
  }

  lemma FoundLowest(ss: seq<Slot>, start: nat, size: nat, found: int)
    requires 0 <= found < |ss| && Overlaps(ss[found], start, size)
    requires forall j :: 0 <= j < |ss| && Overlaps(ss[j], start, size) ==> ss[found].start <= ss[j].start
    ensures Lowest(LiveOf(ss), start, size, ss[found])
  {
    forall s | s in Over(LiveOf(ss), start, size) ensures ss[found].start <= s.start {
      var j :| 0 <= j < |ss| && ss[j].size > 0 && ss[j] == s;
    }
  }

  lemma FoundNone(ss: seq<Slot>, start: nat, size: nat)
    requires forall j :: 0 <= j < |ss| ==> !Overlaps(ss[j], start, size)
    ensures Over(LiveOf(ss), start, size) == {}
  {
    forall s | s in LiveOf(ss) ensures !Overlaps(s, start, size) {
      var j :| 0 <= j < |ss| && ss[j].size > 0 && ss[j] == s;
    }
  }

  class KvmState {
    const slots: array<Slot>
    const broken: bool

    ghost predicate Valid()
      reads this, slots
    {
      slots.Length == SLOTS && Good(slots[..])
    }

    ghost function Live(): set<Slot>
      reads this, slots
    {
      LiveOf(slots[..])
    }

    constructor (broken: bool)
      ensures Valid() && Live() == {} && fresh(slots) && this.broken == broken
    {
      this.broken := broken;
      slots := new Slot[SLOTS](_ => Slot(0, 0, 0));
    }

    /** kvm_lookup_overlapping_slot: the overlapping slot with the lowest start; -1 if there is none. */
    method LookupOverlapping(start: nat, size: nat) returns (found: int)
      requires Valid()
      ensures found == -1 <==> Over(Live(), start, size) == {}
      ensures found != -1 ==> 0 <= found < SLOTS && slots[found].size > 0 && Lowest(Live(), start, size, slots[found])
    {
      found := -1;
      var i := 0;
      while i < slots.Length
        invariant 0 <= i <= slots.Length && -1 <= found < i
        invariant found == -1 ==> forall j :: 0 <= j < i ==> !Overlaps(slots[j], start, size)
        invariant found != -1 ==> Overlaps(slots[found], start, size) && slots[found].size > 0
        invariant found != -1 ==>
          forall j :: 0 <= j < i && Overlaps(slots[j], start, size) ==> slots[found].start <= slots[j].start
      {
        if Overlaps(slots[i], start, size) {
          if !(found != -1 && slots[found].start < slots[i].start) {
            found := i;
          }
        }
        i := i + 1;
      }
      if found != -1 {
        FoundLowest(slots[..], start, size, found);
      } else {
        FoundNone(slots[..], start, size);
      }
    }

    /** kvm_alloc_slot; -1 where it aborts. */
    method AllocSlot() returns (i: int)
      requires Valid()
      ensures i != -1 ==> 0 <= i < SLOTS && !Private(i) && slots[i].size == 0
      ensures i == -1 ==> |Live()| == ALLOCATABLE
    {
      i := 0;
      while i < slots.Length
        invariant 0 <= i <= slots.Length && forall j :: 0 <= j < i && !Private(j) ==> slots[..][j].size > 0
      {
        if !(8 <= i < 12) && slots[i].size == 0 {
          return;
        }
        i := i + 1;
      }
      Room(slots[..]);
      i := -1;
    }

    /** Allocating a slot and filling it in. */
    method Register(s: Slot) returns (ok: bool)
      requires Valid() && s.size > 0 && Over(Live(), s.start, s.size) == {}
      modifies slots
      ensures Valid() && Live() == if ok then old(Live()) + {s} else old(Live())
      ensures |old(Live())| < ALLOCATABLE ==> ok
      ensures ok ==> s !in old(Live())
    {
      var i := AllocSlot();
      if i == -1 {
        return false;
      }
      Placed(slots[..], i, s);
      ghost var was := slots[..];
      slots[i] := s;
      assert slots[..] == was[i := s];
      ok := true;
    }

    method Unregister(i: nat)
      requires Valid() && i < SLOTS && slots[i].size > 0
      modifies slots
      ensures Valid() && Live() == old(Live()) - {old(slots[i])} && old(slots[i]) in old(Live())
    {
      Freed(slots[..], i);
      ghost var was := slots[..];
      slots[i] := slots[i].(size := 0);
      assert slots[..] == was[i := was[i].(size := 0)];
    }

    method RegisterPrefix(mem: Slot, start: nat, ghost rest: set<Slot>) returns (ok: bool)
      requires Valid() && Live() == rest
      requires NeedsPrefix(mem, start) ==> Prefix(mem, start) !in rest && Disjoint(rest + {Prefix(mem, start)})
      modifies slots
      ensures Valid() && (ok ==> Live() == rest + if NeedsPrefix(mem, start) then {Prefix(mem, start)} else {})
      ensures |rest| < ALLOCATABLE ==> ok
    {
      ok := true;
      if mem.start < start {
        NotOver(rest, Prefix(mem, start));
        ok := Register(Prefix(mem, start));
      }
    }

    method RegisterSuffix(mem: Slot, start: nat, size: nat, ghost rest: set<Slot>) returns (ok: bool)
      requires Valid() && Live() == rest
      requires NeedsSuffix(mem, start, size) ==>
        Suffix(mem, start, size) !in rest && Disjoint(rest + {Suffix(mem, start, size)})
      requires Overlaps(mem, start, size)
      modifies slots
      ensures Valid()
      ensures (ok ==> Live() == rest + if NeedsSuffix(mem, start, size) then {Suffix(mem, start, size)} else {})
      ensures |rest| < ALLOCATABLE ==> ok
    {
      ok := true;
      if mem.start + mem.size > start + size {
        NotOver(rest, Suffix(mem, start, size));
        ok := Register(Suffix(mem, start, size));
      }
    }

    /** The body of the loop without the workaround: unregister a slot, register what sticks out. */
    method SplitSlot(start: nat, size: nat, i: nat) returns (ok: bool)
      requires Valid() && i < SLOTS && slots[i].size > 0 && slots[i] in Live() && Overlaps(slots[i], start, size)
      modifies slots
      ensures Valid() && (ok ==> Live() == Split(old(Live()), start, size, old(slots[i])))
      ensures |old(Live())| < ALLOCATABLE ==> ok
    {
      var mem := slots[i];
      ghost var live := Live();
      SplitReady(slots[..], start, size, mem);
      Unregister(i);
      ok := RegisterPrefix(mem, start, live - {mem});
      if ok {
        ok := RegisterSuffix(mem, start, size, WithPrefix(live, start, mem));
      }
    }

    /** The workaround: the slot is unregistered and registered again as it was. */
    method Reregister(i: nat) returns (ok: bool)
      requires Valid() && i < SLOTS && slots[i].size > 0
      modifies slots
      ensures Valid() && (ok ==> Live() == old(Live()))
      ensures |old(Live())| <= ALLOCATABLE ==> ok
    {
      var mem := slots[i];
      GoodDisjoint(slots[..]);
      Unregister(i);
      NotOver(Live(), mem);
      ok := Register(mem);
    }

    method RoundConsume(i: nat, start: nat, size: nat, phys: int, ghost c: Call)
      returns (ok: bool, start': nat, size': nat, phys': int)
      requires Valid() && i < SLOTS && slots[i].size > 0
      requires Looping(c, broken, Live(), start, size, phys) && Lowest(Live(), start, size, slots[i])
      requires broken && slots[i].start == start && slots[i].size < size && IsRam(c.phys)
      modifies slots
      ensures Valid() && (|c.live| < ALLOCATABLE ==> ok)
      ensures ok ==> Looping(c, broken, Live(), start', size', phys')
      ensures ok ==> |Over(Live(), start', size')| < |Over(old(Live()), start, size)|
    {
      ghost var live := Live();
      LoopRoom(c, broken, live, start, size, phys, slots[i]);
      start', size', phys' := start + slots[i].size, size - slots[i].size, phys + slots[i].size;
      LoopConsumes(c, broken, live, start, size, phys, slots[i], start', size', phys');
      ok := Reregister(i);
    }

    method RoundSplit(i: nat, start: nat, size: nat, phys: int, ghost c: Call) returns (ok: bool)
      requires Valid() && i < SLOTS && slots[i].size > 0
      requires Looping(c, broken, Live(), start, size, phys) && Lowest(Live(), start, size, slots[i])
      requires !(broken && slots[i].start == start && slots[i].size < size && IsRam(c.phys))
      modifies slots
      ensures Valid() && (|c.live| < ALLOCATABLE ==> ok)
      ensures ok ==> Looping(c, broken, Live(), start, size, phys)
      ensures ok ==> |Over(Live(), start, size)| < |Over(old(Live()), start, size)|
    {
      LoopRoom(c, broken, Live(), start, size, phys, slots[i]);
      LoopSplits(c, broken, Live(), start, size, phys, slots[i]);
      ok := SplitSlot(start, size, i);
    }

    /** One round of the loop on an overlapping slot that does not already map the range as asked. */
    method Round(i: nat, start: nat, size: nat, phys: int, phys0: nat, ghost c: Call)
      returns (ok: bool, start': nat, size': nat, phys': int)
      requires Valid() && i < SLOTS && slots[i].size > 0 && c.phys == phys0
      requires Looping(c, broken, Live(), start, size, phys) && Lowest(Live(), start, size, slots[i])
      modifies slots
      ensures Valid() && (|c.live| < ALLOCATABLE ==> ok)
      ensures ok ==> Looping(c, broken, Live(), start', size', phys')
      ensures ok ==> |Over(Live(), start', size')| < |Over(old(Live()), start, size)|
    {
      var mem := slots[i];
      if broken && mem.start == start && mem.size < size && IsRam(phys0) {
        ok, start', size', phys' := RoundConsume(i, start, size, phys, c);
      } else {
        ok := RoundSplit(i, start, size, phys, c);
        start', size', phys' := start, size, phys;
      }
    }

    /** The loop of kvm_set_phys_mem with the early return; the result is the rest of the range. */
    method ClearRange(start0: nat, size0: nat, phys0: nat, ghost c: Call)
      returns (ok: bool, returned: bool, start: nat, size: nat, phys: int)
      requires Valid() && c == Call(Live(), start0, size0, phys0, Kept(Live(), broken, start0, size0, phys0))
      modifies slots
      ensures Valid() && (|c.live| < ALLOCATABLE ==> ok)
      ensures ok && returned ==> Live() == c.live && Remapped(c.live, Live(), start0, size0, phys0, c.kept)
      ensures ok && !returned ==> Looping(c, broken, Live(), start, size, phys) && Over(Live(), start, size) == {}
      ensures Nothing(c) ==> ok && returned
    {
      start, size, phys := start0, size0, ClearRom(phys0);
      ok, returned := true, false;
      GoodDisjoint(slots[..]);
      while true
        invariant Valid() && ok && !returned && Looping(c, broken, Live(), start, size, phys)
        invariant Nothing(c) ==> Live() == c.live && start == start0 && size == size0 && phys == ClearRom(phys0)
        decreases |Over(Live(), start, size)|
      {
        if Nothing(c) {
          CoverIsFound(Live(), start, size, phys);
        }
        var i := LookupOverlapping(start, size);
        if i == -1 {
          break;
        }
        if Fits(slots[i], start, size, phys, phys0) {
          LoopReturns(c, broken, Live(), start, size, phys, slots[i]);
          returned := true;
          return;
        }
        ok, start, size, phys := Round(i, start, size, phys, phys0, c);
        if !ok {
          return;
        }
      }
    }

    /** kvm_set_phys_mem for an aligned start. */
    method SetAligned(start0: nat, size0: nat, phys0: nat) returns (ok: bool)
      requires Valid()
      modifies slots
      ensures Valid() && (|old(Live())| + 2 <= ALLOCATABLE ==> ok)
      ensures ok ==> |Live()| <= |old(Live())| + 2
      ensures ok ==>
        Remapped(old(Live()), Live(), start0, size0, phys0, Kept(old(Live()), broken, start0, size0, phys0))
      ensures old(Nothing(Call(Live(), start0, size0, phys0, 0))) ==> ok && Live() == old(Live())
    {
      ghost var c := Call(Live(), start0, size0, phys0, Kept(Live(), broken, start0, size0, phys0));
      var returned, start, size, phys;
      ok, returned, start, size, phys := ClearRange(start0, size0, phys0, c);
      if !ok || returned {
        return;
      }
      LoopEnds(c, broken, Live(), start, size, phys);
      if size == 0 || !IsRam(phys0) {
        return;
      }
      ok := Register(Slot(start, size, phys));
    }

    /**
      kvm_set_phys_mem; false where it aborts.  The low 12 bits of phys are flags: below 16 the
      memory is RAM or ROM (8), which is mapped like RAM, and from 16 on there is nothing to map.
      Without the workaround the range ends up mapped exactly as asked and everything else is
      left alone.
     */
    method SetPhysMem(start: nat, size: nat, phys: nat) returns (ok: bool)
      requires Valid()
      modifies slots
      ensures Valid()
      ensures start % PAGE == 0 && |old(Live())| + 2 <= ALLOCATABLE ==> ok
      ensures start % PAGE != 0 ==> (ok <==> phys % PAGE >= 16 && Over(old(Live()), start, size) == {})
      ensures ok ==> |Live()| <= |old(Live())| + 2
      ensures ok && !(broken && IsRam(phys)) ==> ExactlyMapped(old(Live()), Live(), start, size, phys)
      ensures ok && broken && IsRam(phys) ==>
        Remapped(old(Live()), Live(), start, size, phys, Consumed(old(Live()), start, size))
      ensures ok && phys % PAGE < 16 ==>
        forall a, r :: start + (if broken then Consumed(old(Live()), start, size) else 0) <= a < start + size ==>
          (Maps(Live(), a, r) <==> r == phys - (if phys % PAGE >= 8 then 8 else 0) + (a - start))
      ensures ok && phys % PAGE >= 16 ==> forall a, r :: start <= a < start + size ==> !Maps(Live(), a, r)
      ensures ok ==> forall a, r :: !(start <= a < start + size) ==> (Maps(Live(), a, r) <==> Maps(old(Live()), a, r))
      ensures start % PAGE == 0 && size > 0 && phys % PAGE < 16 ==>
        (old(InPlace(Live(), start, size, phys - if phys % PAGE >= 8 then 8 else 0)) ==> ok && Live() == old(Live()))
    {
      FlagsOf(phys);
      if start % PAGE != 0 {
        if !IsRam(phys) {
          var i := LookupOverlapping(start, size);
          if i == -1 {
            UnalignedNoop(slots[..], start, size, phys);
            return true;
          }
        }
        return false;
      }
      ok := SetAligned(start, size, phys);
    }
  }

  lemma EighthBit(p: nat, f: nat)
    requires f < 16
    ensures (8 * (2 * p) + f) / 8 % 2 == if f < 8 then 0 else 1
  {
    var e := if f < 8 then 0 else 1;
    assert (8 * (2 * p) + f) / 8 == 2 * p + e;
  }

  /** Clearing the ROM bit of the flags. */
  lemma FlagsOf(phys: nat)
    ensures IsRam(phys) <==> phys % PAGE < 16
    ensures phys % PAGE < 16 ==> ClearRom(phys) == phys - if phys % PAGE >= 8 then 8 else 0
  {
    var p, f := phys / PAGE, phys % PAGE;
    if f < 16 {
      assert phys == 8 * (2 * (256 * p)) + f;
      EighthBit(256 * p, f);
    }
  }

  lemma UnalignedNoop(ss: seq<Slot>, start: nat, size: nat, phys: nat)
    requires Good(ss) && !IsRam(phys) && Over(LiveOf(ss), start, size) == {}
    ensures ExactlyMapped(LiveOf(ss), LiveOf(ss), start, size, phys)
  {
    GoodDisjoint(ss);
    forall a, r | start <= a < start + size ensures !Maps(LiveOf(ss), a, r) {
      NothingInside(LiveOf(ss), start, size, a, r);
    }
  }
}
