/**
  The software TLB (cputlb.c): a direct-mapped table per MMU mode that holds small pages only.
  Large pages are covered by one address/mask pair; touching that region flushes everything.
 */
module Tlb {
  type Addr = bv32

  const TLB_SIZE: nat := 256

  /** The three comparator words: -1 for none, else a page address with flags in its low bits. */
  datatype Entry = Entry(read: Addr, write: Addr, code: Addr)

  const EMPTY: Entry := Entry(0xffff_ffff, 0xffff_ffff, 0xffff_ffff)

  function PageOf(a: Addr): Addr { a & 0xffff_f000 }

  /** What takes part in a comparison: TARGET_PAGE_MASK | TLB_INVALID_MASK. */
  function Key(word: Addr): Addr { word & 0xffff_f008 }

  /** The test of tlb_flush_entry, on a page address. */
  predicate HoldsPage(e: Entry, page: Addr) { page == Key(e.read) || page == Key(e.write) || page == Key(e.code) }

  /** The entry is one for the page of x. */
  predicate Holds(e: Entry, x: Addr) { HoldsPage(e, PageOf(x)) }

  /** Flags in a word (TLB_NOTDIRTY, bit 4, and TLB_MMIO, bit 5) do not count for the comparison. */
  lemma StripFlags(page: Addr, f: Addr)
    requires page & 0xffff_f000 == page && f & 0xffff_ffcf == 0
    ensures (page | f) & 0xffff_f008 == page
  {
  }

  /** The word -1 matches no page, because its invalid bit, bit 3, takes part in the comparison. */
  lemma NoneNeverEqual(x: Addr, page: Addr)
    requires page == x & 0xffff_f000
    ensures page != 0xffff_f008
  {
  }

  /** The comparators of an entry that are not -1 stand for the same page. */
  predicate OnePage(e: Entry) { OneKey(Key(e.read), Key(e.write), Key(e.code)) }

  /** The key of -1 is 0xfffff008. */
  predicate OneKey(r: Addr, w: Addr, c: Addr) {
    var none := 0xffff_f008;
    (r == none || w == none || r == w) && (r == none || c == none || r == c) && (w == none || c == none || w == c)
  }

  function Index(x: Addr): (i: nat)
    ensures i < TLB_SIZE
  {
    ((x >> 12) & 0xff) as bv8 as nat
  }

  lemma IndexOfPage(x: Addr)
    ensures Index(PageOf(x)) == Index(x)
  {
    assert (((x & 0xffff_f000) >> 12) & 0xff) == (x >> 12) & 0xff;
  }

  lemma SamePageSameIndex(x: Addr, y: Addr)
    requires PageOf(x) == PageOf(y)
    ensures Index(x) == Index(y)
  {
    IndexOfPage(x);
    IndexOfPage(y);
  }

  lemma EmptyHolds(x: Addr)
    ensures !Holds(EMPTY, x)
  {
    NoneNeverEqual(x, PageOf(x));
  }

  // ----- Large pages ---------------------------------------------------------

  predicate PowerOfTwo(size: Addr) { size != 0 && size & (size - 1) == 0 }

  function MaskOf(size: Addr): Addr { !(size - 1) }

  /** The aligned region of addresses that agree with v under mask. */
  datatype Region = Region(v: Addr, mask: Addr)

  /** The guest page of the given size around v. */
  function PageAround(v: Addr, size: Addr): Region { Region(v, MaskOf(size)) }

  predicate Inside(p: Region, x: Addr) { x & p.mask == p.v & p.mask }

  lemma LowBits(d: Addr, t: Addr)
    requires t & (t + 1) == 0
    ensures d & !t == 0 <==> d <= t
  {
  }

  lemma BelowSize(d: Addr, size: Addr)
    requires PowerOfTwo(size)
    ensures d & MaskOf(size) == 0 <==> d < size
  {
    LowBits(d, size - 1);
  }

  /** The page of a power-of-two size around v: the addresses that differ from v in lower bits only. */
  lemma AroundAt(v: Addr, size: Addr, x: Addr)
    requires PowerOfTwo(size)
    ensures Inside(PageAround(v, size), x) <==> x ^ v < size
  {
    AgreeOn(x, v, MaskOf(size));
    BelowSize(x ^ v, size);
  }

  lemma AroundAll(v: Addr, size: Addr)
    requires PowerOfTwo(size)
    ensures forall x :: Inside(PageAround(v, size), x) <==> x ^ v < size
  {
    forall x ensures Inside(PageAround(v, size), x) <==> x ^ v < size {
      AroundAt(v, size, x);
    }
  }

  /** All bits from some position up. */
  predicate HighBits(m: Addr) { (m << 1) & m == m << 1 }

  lemma AndIsHigh(a: Addr, b: Addr)
    requires HighBits(a) && HighBits(b)
    ensures HighBits(a & b)
  {
  }

  lemma ShiftIsHigh(m: Addr)
    requires HighBits(m)
    ensures HighBits(m << 1) && (m << 1) & m == m << 1
    ensures m != 0 ==> m << 1 < m
  {
  }

  /** Every address that k keeps apart, m keeps apart: regions of k are unions of regions of m. */
  predicate Coarser(k: Addr, m: Addr) { k & m == k }

  /** All addresses of page p have the value addr under mask. */
  ghost predicate Contains(addr: Addr, mask: Addr, p: Region) { forall x :: Inside(p, x) ==> Under(x, mask, addr) }

  predicate Under(x: Addr, mask: Addr, addr: Addr) { x & mask == addr }

  lemma AndSub(x: Addr, m: Addr, k: Addr)
    requires k & m == k
    ensures (x & m) & k == x & k
  {
    assert (x & m) & k == x & (k & m);
  }

  lemma WidenedAt(x: Addr, addr: Addr, mask: Addr, addr': Addr, mask': Addr)
    requires Under(x, mask, addr) && Coarser(mask', mask) && addr' == addr & mask'
    ensures Under(x, mask', addr')
  {
    AndSub(x, mask, mask');
  }

  lemma Widened(addr: Addr, mask: Addr, p: Region, addr': Addr, mask': Addr)
    requires Contains(addr, mask, p) && Coarser(mask', mask) && addr' == addr & mask'
    ensures Contains(addr', mask', p)
  {
    forall x | Inside(p, x) ensures Under(x, mask', addr') {
      WidenedAt(x, addr, mask, addr', mask');
    }
  }

  lemma TakenAt(x: Addr, p: Region, addr': Addr, mask': Addr)
    requires Inside(p, x) && Coarser(mask', p.mask) && addr' == p.v & mask'
    ensures Under(x, mask', addr')
  {
    SameUnder(x, p.v, p.mask, addr', mask');
  }

  lemma SameUnder(x: Addr, v: Addr, m: Addr, addr': Addr, mask': Addr)
    requires x & m == v & m && mask' & m == mask' && addr' == v & mask'
    ensures x & mask' == addr'
  {
    AndSub(x, m, mask');
    AndSub(v, m, mask');
  }

  lemma TakenIn(p: Region, addr': Addr, mask': Addr)
    requires Coarser(mask', p.mask) && addr' == p.v & mask'
    ensures Contains(addr', mask', p)
  {
    forall x | Inside(p, x) ensures Under(x, mask', addr') {
      TakenAt(x, p, addr', mask');
    }
  }

  lemma CoarserTrans(k: Addr, m: Addr, n: Addr)
    requires Coarser(k, m) && Coarser(m, n)
    ensures Coarser(k, n)
  {
  }

  lemma CoarserBoth(a: Addr, b: Addr)
    ensures Coarser(a & b, a) && Coarser(a & b, b)
  {
  }

  /** A mask that joins the two addresses and respects both regions. */
  predicate Joins(k: Addr, a: Addr, b: Addr, m: Addr) { HighBits(k) && Coarser(k, m) && (a ^ b) & k == 0 }

  lemma JoinsShift(k: Addr, a: Addr, b: Addr, m: Addr, mask: Addr)
    requires Joins(k, a, b, m) && HighBits(mask) && Coarser(k, mask) && (a ^ b) & mask != 0
    ensures Coarser(k, mask << 1)
  {
    HighChain(k, mask);
  }

  lemma HighChain(k: Addr, m: Addr)
    requires HighBits(k) && HighBits(m) && Coarser(k, m) && k != m
    ensures Coarser(k, m << 1)
  {
  }

  lemma AgreeOn(a: Addr, b: Addr, k: Addr)
    ensures (a ^ b) & k == 0 <==> a & k == b & k
  {
  }

  /** The tracked region: either nothing was tracked, or it contains every large page. */
  ghost predicate Tracked(addr: Addr, mask: Addr, large: set<Region>) {
    if addr == 0xffff_ffff then mask == 0 && large == {}
    else Usable(mask) && forall p :: p in large ==> Contains(addr, mask, p)
  }

  /** The mask of an aligned region of at least a small page. */
  predicate Usable(m: Addr) { HighBits(m) && m & 0xfff == 0 }

  lemma TrackedFlush(addr: Addr, mask: Addr, large: set<Region>, p: Region, a: Addr)
    requires Tracked(addr, mask, large) && p in large && Inside(p, a)
    ensures a & mask == addr
  {
    assert Contains(addr, mask, p);
  }

  lemma NotNone(v: Addr, mask: Addr, addr: Addr)
    requires mask & 0xfff == 0 && addr == v & mask
    ensures addr != 0xffff_ffff
  {
  }

  lemma LargeMask(size: Addr)
    requires PowerOfTwo(size) && size >= 0x1000
    ensures Usable(MaskOf(size))
  {
  }

  lemma LowClear(a: Addr, b: Addr)
    requires b & 0xfff == 0
    ensures (a & b) & 0xfff == 0 && (b << 1) & 0xfff == 0
  {
  }

  class SoftTlb {
    const modes: nat
    const table: array2<Entry>
    var flushAddr: Addr
    var flushMask: Addr
    ghost var large: set<Region>

    /** Comparators sit in the slot of their page; large pages since the last full flush are tracked. */
    ghost predicate Valid()
      reads this, table
    {
      && table.Length0 == modes && table.Length1 == TLB_SIZE
      && Tracked(flushAddr, flushMask, large)
      && (forall m, i, x :: 0 <= m < modes && 0 <= i < TLB_SIZE && Holds(table[m, i], x) ==> i == Index(x))
      && (forall m, i :: 0 <= m < modes && 0 <= i < TLB_SIZE ==> OnePage(table[m, i]))
    }

    /** Some MMU mode has an entry for the page of x. */
    ghost predicate Cached(x: Addr)
      reads this, table
      requires table.Length0 == modes && table.Length1 == TLB_SIZE
    {
      exists m :: 0 <= m < modes && Holds(table[m, Index(x)], x)
    }

    constructor (modes: nat)
      ensures Valid() && large == {} && fresh(table) && forall x :: !Cached(x)
    {
      this.modes := modes;
      table := new Entry[modes, TLB_SIZE]((_, _) => EMPTY);
      flushAddr, flushMask := 0xffff_ffff, 0;
      large := {};
      new;
      forall x ensures !Holds(EMPTY, x) {
        EmptyHolds(x);
      }
    }

    /** tlb_flush */
    method Flush()
      requires Valid()
      modifies this`flushAddr, this`flushMask, this`large, table
      ensures Valid() && large == {} && forall x :: !Cached(x)
    {
      var i := 0;
      while i < TLB_SIZE
        invariant 0 <= i <= TLB_SIZE
        invariant forall m, j :: 0 <= m < modes && 0 <= j < i ==> table[m, j] == EMPTY
      {
        var m := 0;
        while m < modes
          invariant 0 <= m <= modes
          invariant forall k, j :: 0 <= k < modes && 0 <= j < i ==> table[k, j] == EMPTY
          invariant forall k :: 0 <= k < m ==> table[k, i] == EMPTY
        {
          table[m, i] := EMPTY;
          m := m + 1;
        }
        i := i + 1;
      }
      flushAddr, flushMask := 0xffff_ffff, 0;
      large := {};
      forall x ensures !Holds(EMPTY, x) {
        EmptyHolds(x);
      }
    }

    method AddFirst(v: Addr, m: Addr)
      requires Usable(m) && large == {}
      modifies this`flushAddr, this`flushMask, this`large
      ensures Tracked(flushAddr, flushMask, large) && large == {Region(v, m)} && flushAddr != 0xffff_ffff
      ensures flushMask == m && flushAddr == v & m
    {
      FirstRegion(Region(v, m), v & m);
      flushAddr := v & m;
      flushMask := m;
      large := {Region(v, m)};
    }

    method AddNext(v: Addr, m: Addr)
      requires Usable(m) && Tracked(flushAddr, flushMask, large) && flushAddr != 0xffff_ffff
      modifies this`flushAddr, this`flushMask, this`large
      ensures Tracked(flushAddr, flushMask, large) && large == old(large) + {Region(v, m)} && flushAddr != 0xffff_ffff
      ensures Tightest(flushMask, old(flushAddr), v, m & old(flushMask))
    {
      flushAddr, flushMask := NextRegion(flushAddr, flushMask, v, m, large);
      large := large + {Region(v, m)};
    }

    /** tlb_add_large_page: the region grows to the smallest aligned one that takes in the new page. */
    method AddLargePage(v: Addr, m: Addr)
      requires Tracked(flushAddr, flushMask, large) && Usable(m)
      modifies this`flushAddr, this`flushMask, this`large
      ensures Tracked(flushAddr, flushMask, large) && large == old(large) + {Region(v, m)} && flushAddr != 0xffff_ffff
      ensures old(flushAddr) == 0xffff_ffff ==> flushMask == m && flushAddr == v & m
      ensures old(flushAddr) != 0xffff_ffff ==> Tightest(flushMask, old(flushAddr), v, m & old(flushMask))
    {
      if flushAddr == 0xffff_ffff {
        AddFirst(v, m);
      } else {
        AddNext(v, m);
      }
    }

    /** One pass over the modes with tlb_flush_entry. */
    method FlushSlot(a: Addr)
      requires Valid()
      modifies table
      ensures Valid()
      ensures forall m, i :: 0 <= m < modes && 0 <= i < TLB_SIZE ==>
        table[m, i] == if i == Index(a) && Holds(old(table[m, i]), a) then EMPTY else old(table[m, i])
    {
      var i := Index(a);
      var m := 0;
      while m < modes
        invariant 0 <= m <= modes
        invariant forall k, j :: 0 <= k < modes && 0 <= j < TLB_SIZE ==>
          table[k, j] == if k < m && j == i && Holds(old(table[k, j]), a) then EMPTY else old(table[k, j])
      {
        if Holds(table[m, i], a) {
          table[m, i] := EMPTY;
        }
        m := m + 1;
      }
      forall x ensures !Holds(EMPTY, x) {
        EmptyHolds(x);
      }
    }

    /** The small-page part of tlb_flush_page: exactly the page of a is dropped. */
    method DropPage(a: Addr)
      requires Valid()
      modifies table
      ensures Valid() && forall x :: Cached(x) <==> old(Cached(x)) && PageOf(x) != PageOf(a)
    {
      FlushSlot(a);
      forall x, k | 0 <= k < modes
        ensures Holds(table[k, Index(x)], x) <==> old(Holds(table[k, Index(x)], x)) && PageOf(x) != PageOf(a)
      {
        FlushedHolds(old(table[k, Index(x)]), table[k, Index(x)], a, x);
      }
    }

    /**
      tlb_flush_page: afterwards there is no entry, in any mode, for any address of any page
      that contains a, whether it is a small page or a large one set since the last full flush.
     */
    method FlushPage(a: Addr)
      requires Valid()
      modifies this, table
      ensures Valid() && !Cached(a)
      ensures forall p, x :: p in old(large) && Inside(p, a) && Inside(p, x) ==> !Cached(x)
      ensures old(a & flushMask == flushAddr) ==> forall x :: !Cached(x)
      ensures old(a & flushMask != flushAddr) ==> forall x :: Cached(x) <==> old(Cached(x)) && PageOf(x) != PageOf(a)
    {
      ghost var was := large;
      if a & flushMask == flushAddr {
        Flush();
      } else {
        forall p | p in large && Inside(p, a) ensures false {
          TrackedFlush(flushAddr, flushMask, large, p, a);
        }
        DropPage(a);
      }
    }

    /** The mapping of one small page goes into its slot. */
    method StoreEntry(v: Addr, mode: nat, e: Entry)
      requires Valid() && mode < modes && OnePage(e)
      requires forall x :: Holds(e, x) ==> PageOf(x) == v && Index(x) == Index(v)
      modifies table
      ensures Valid() && table[mode, Index(v)] == e
      ensures forall m, i :: 0 <= m < modes && 0 <= i < TLB_SIZE && !(m == mode && i == Index(v)) ==>
        table[m, i] == old(table[m, i])
    {
      table[mode, Index(v)] := e;
    }

    method Track(v: Addr, size: Addr)
      requires Valid() && PowerOfTwo(size) && size >= 0x1000
      modifies this`flushAddr, this`flushMask, this`large
      ensures Valid() && large == if size == 0x1000 then old(large) else old(large) + {PageAround(v, size)}
    {
      if size != 0x1000 {
        LargeMask(size);
        AddLargePage(v, MaskOf(size));
      }
    }

    /** tlb_set_page: the given page is cached in one mode; a large page is tracked as well. */
    method SetPage(v: Addr, size: Addr, mode: nat, prot: Prot, backing: Backing, watched: bool)
      requires Valid() && mode < modes && PageOf(v) == v && PowerOfTwo(size) && size >= 0x1000
      modifies this, table
      ensures Valid() && large == if size == 0x1000 then old(large) else old(large) + {PageAround(v, size)}
      ensures forall m, i :: 0 <= m < modes && 0 <= i < TLB_SIZE && !(m == mode && i == Index(v)) ==>
        table[m, i] == old(table[m, i])
      ensures forall x :: Holds(table[mode, Index(v)], x) <==> PageOf(x) == v && (prot.read || prot.write || prot.exec)
      ensures WordIs(table[mode, Index(v)].read, prot.read, v, backing.Io? || watched, false)
      ensures WordIs(table[mode, Index(v)].write, prot.write, v, !backing.Ram? || watched,
                     backing.Ram? && backing.clean)
      ensures WordIs(table[mode, Index(v)].code, prot.exec, v, backing.Io?, false)
      ensures forall x :: Inside(PageAround(v, size), x) <==> x ^ v < size
    {
      Track(v, size);
      AroundAll(v, size);
      var e := NewEntry(v, prot, backing, watched);
      NewStandsFor(v, prot, backing, watched, e);
      NewWords(v, prot, backing, watched, e);
      EntryHolds(v, prot, e);
      StoreEntry(v, mode, e);
    }
  }

  /** tlb_flush_entry: an entry goes iff its words match the page of a. */
  lemma FlushedHolds(e: Entry, e': Entry, a: Addr, x: Addr)
    requires OnePage(e) && e' == if Index(x) == Index(a) && Holds(e, a) then EMPTY else e
    ensures Holds(e', x) <==> Holds(e, x) && PageOf(x) != PageOf(a)
  {
    FlushReady(a, x, PageOf(a), PageOf(x));
    FlushedPages(e, e', PageOf(a), PageOf(x), Index(x) == Index(a));
  }

  lemma FlushReady(a: Addr, x: Addr, p: Addr, q: Addr)
    requires p == PageOf(a) && q == PageOf(x)
    ensures p != 0xffff_f008 && q != 0xffff_f008 && !HoldsPage(EMPTY, q) && (p == q ==> Index(x) == Index(a))
  {
    NoneNeverEqual(a, p);
    NoneNeverEqual(x, q);
    EmptyHolds(x);
    if p == q {
      SamePageSameIndex(x, a);
    }
  }

  lemma FlushedPages(e: Entry, e': Entry, p: Addr, q: Addr, same: bool)
    requires OnePage(e) && (p == q ==> same) && e' == if same && HoldsPage(e, p) then EMPTY else e
    requires p != 0xffff_f008 && q != 0xffff_f008 && !HoldsPage(EMPTY, q)
    ensures HoldsPage(e', q) <==> HoldsPage(e, q) && p != q
  {
    OneKeyOnly(Key(e.read), Key(e.write), Key(e.code), p, q);
  }

  /** Two pages among keys that agree are the same page. */
  lemma OneKeyOnly(r: Addr, w: Addr, c: Addr, p: Addr, q: Addr)
    requires OneKey(r, w, c) && p != 0xffff_f008 && q != 0xffff_f008
    ensures (p == r || p == w || p == c) && (q == r || q == w || q == c) ==> p == q
  {
  }

  datatype Prot = Prot(read: bool, write: bool, exec: bool)

  /** What the physical page descriptor says about the page. */
  datatype Backing = Ram(clean: bool) | Rom | RomDevice | Io

  /** A comparator word: the page with flags, or -1. */
  function Word(present: bool, v: Addr, flags: Addr): Addr { if present then v | flags else 0xffff_ffff }

  function Mmio(on: bool): Addr { if on then 0x20 else 0 }

  function WriteFlags(backing: Backing, watched: bool): Addr {
    if backing.Rom? || backing.RomDevice? then 0x20
    else if backing.Ram? && backing.clean then Mmio(watched) | 0x10
    else Mmio(backing.Io? || watched)
  }

  /** The comparators that tlb_set_page computes. */
  function NewEntry(v: Addr, prot: Prot, backing: Backing, watched: bool): Entry {
    Entry(Word(prot.read, v, Mmio(backing.Io? || watched)),
          Word(prot.write, v, WriteFlags(backing, watched)),
          Word(prot.exec, v, Mmio(backing.Io?)))
  }

  /** A comparator word for page v, with its flag bits TLB_MMIO (5) and TLB_NOTDIRTY (4), or -1 if there is none. */
  ghost predicate WordIs(word: Addr, present: bool, v: Addr, mmio: bool, notDirty: bool) {
    if present then
      && word & 0xffff_f000 == v && word & 0x0000_0fcf == 0
      && (word & 0x20 != 0 <==> mmio) && (word & 0x10 != 0 <==> notDirty)
    else word == 0xffff_ffff
  }

  /** The bits of a page address with flags. */
  lemma FlaggedBits(v: Addr, f: Addr)
    requires v & 0xffff_f000 == v && f & 0xffff_ffcf == 0
    ensures (v | f) & 0xffff_f000 == v && (v | f) & 0x0000_0fcf == 0
    ensures (v | f) & 0x20 == f & 0x20 && (v | f) & 0x10 == f & 0x10
  {
  }

  lemma FlagsIs(mmio: bool, notDirty: bool, f: Addr)
    requires f == if mmio && notDirty then 0x30 else if mmio then 0x20 else if notDirty then 0x10 else 0
    ensures f & 0xffff_ffcf == 0 && (f & 0x20 != 0 <==> mmio) && (f & 0x10 != 0 <==> notDirty)
  {
  }

  lemma FlaggedWord(present: bool, v: Addr, mmio: bool, notDirty: bool, f: Addr, word: Addr)
    requires v & 0xffff_f000 == v && word == if present then v | f else 0xffff_ffff
    requires f == if mmio && notDirty then 0x30 else if mmio then 0x20 else if notDirty then 0x10 else 0
    ensures WordIs(word, present, v, mmio, notDirty)
  {
    FlagsIs(mmio, notDirty, f);
    FlaggedBits(v, f);
  }

  lemma WriteFlagsIs(backing: Backing, watched: bool, f: Addr)
    requires f == WriteFlags(backing, watched)
    ensures var mmio, notDirty := !backing.Ram? || watched, backing.Ram? && backing.clean;
      f == if mmio && notDirty then 0x30 else if mmio then 0x20 else if notDirty then 0x10 else 0
  {
  }

  lemma MmioWord(present: bool, v: Addr, on: bool, f: Addr, word: Addr)
    requires v & 0xffff_f000 == v && f == Mmio(on) && word == Word(present, v, f)
    ensures WordIs(word, present, v, on, false)
  {
    if on {
      FlagsIs(true, false, f);
    } else {
      FlagsIs(false, false, f);
    }
    FlaggedBits(v, f);
  }

  lemma WriteWord(v: Addr, prot: Prot, backing: Backing, watched: bool, f: Addr, word: Addr)
    requires v & 0xffff_f000 == v && f == WriteFlags(backing, watched) && word == Word(prot.write, v, f)
    ensures WordIs(word, prot.write, v, !backing.Ram? || watched, backing.Ram? && backing.clean)
  {
    WriteFlagsIs(backing, watched, f);
    FlaggedWord(prot.write, v, !backing.Ram? || watched, backing.Ram? && backing.clean, f, word);
  }

  /** Each word is for its own right, and flags say how the page is to be accessed. */
  lemma NewWords(v: Addr, prot: Prot, backing: Backing, watched: bool, e: Entry)
    requires PageOf(v) == v && e == NewEntry(v, prot, backing, watched)
    ensures WordIs(e.read, prot.read, v, backing.Io? || watched, false)
    ensures WordIs(e.write, prot.write, v, !backing.Ram? || watched, backing.Ram? && backing.clean)
    ensures WordIs(e.code, prot.exec, v, backing.Io?, false)
  {
    MmioWord(prot.read, v, backing.Io? || watched, Mmio(backing.Io? || watched), e.read);
    WriteWord(v, prot, backing, watched, WriteFlags(backing, watched), e.write);
    MmioWord(prot.exec, v, backing.Io?, Mmio(backing.Io?), e.code);
  }

  predicate IsFlags(f: Addr) { f & 0xffff_ffcf == 0 }

  lemma MmioIsFlags(on: bool)
    ensures IsFlags(Mmio(on)) && IsFlags(Mmio(on) | 0x10)
  {
  }

  lemma WriteFlagsAre(backing: Backing, watched: bool)
    ensures IsFlags(WriteFlags(backing, watched))
  {
    MmioIsFlags(backing.Io? || watched);
    MmioIsFlags(watched);
  }

  lemma WordKey(present: bool, v: Addr, f: Addr, k: Addr)
    requires v & 0xffff_f000 == v && IsFlags(f) && k == Key(Word(present, v, f))
    ensures k == if present then v else 0xffff_f008
  {
    StripFlags(v, f);
  }

  lemma KeysHold(r: Addr, w: Addr, c: Addr, v: Addr, prot: Prot, page: Addr)
    requires r == (if prot.read then v else 0xffff_f008) && w == (if prot.write then v else 0xffff_f008)
    requires c == (if prot.exec then v else 0xffff_f008) && page != 0xffff_f008
    ensures (page == r || page == w || page == c) <==> page == v && (prot.read || prot.write || prot.exec)
    ensures OneKey(r, w, c)
  {
  }

  /** The words of e stand for page v where prot allows the access, and for none elsewhere. */
  predicate StandsFor(e: Entry, v: Addr, prot: Prot) {
    && Key(e.read) == (if prot.read then v else 0xffff_f008) && Key(e.write) == (if prot.write then v else 0xffff_f008)
    && Key(e.code) == (if prot.exec then v else 0xffff_f008)
  }

  lemma NewStandsFor(v: Addr, prot: Prot, backing: Backing, watched: bool, e: Entry)
    requires PageOf(v) == v && e == NewEntry(v, prot, backing, watched)
    ensures StandsFor(e, v, prot)
  {
    ReadKey(v, prot, backing, watched, e.read);
    WriteKey(v, prot, backing, watched, e.write);
    CodeKey(v, prot, backing, watched, e.code);
  }

  lemma ReadKey(v: Addr, prot: Prot, backing: Backing, watched: bool, word: Addr)
    requires PageOf(v) == v && word == NewEntry(v, prot, backing, watched).read
    ensures Key(word) == if prot.read then v else 0xffff_f008
  {
    MmioIsFlags(backing.Io? || watched);
    WordKey(prot.read, v, Mmio(backing.Io? || watched), Key(word));
  }

  lemma WriteKey(v: Addr, prot: Prot, backing: Backing, watched: bool, word: Addr)
    requires PageOf(v) == v && word == NewEntry(v, prot, backing, watched).write
    ensures Key(word) == if prot.write then v else 0xffff_f008
  {
    WriteFlagsAre(backing, watched);
    WordKey(prot.write, v, WriteFlags(backing, watched), Key(word));
  }

  lemma CodeKey(v: Addr, prot: Prot, backing: Backing, watched: bool, word: Addr)
    requires PageOf(v) == v && word == NewEntry(v, prot, backing, watched).code
    ensures Key(word) == if prot.exec then v else 0xffff_f008
  {
    MmioIsFlags(backing.Io?);
    WordKey(prot.exec, v, Mmio(backing.Io?), Key(word));
  }

  lemma EntryHoldsAt(v: Addr, prot: Prot, e: Entry, x: Addr)
    requires StandsFor(e, v, prot)
    ensures Holds(e, x) <==> PageOf(x) == v && (prot.read || prot.write || prot.exec)
    ensures OnePage(e)
  {
    NoneNeverEqual(x, PageOf(x));
    KeysHold(Key(e.read), Key(e.write), Key(e.code), v, prot, PageOf(x));
  }

  lemma EntryHolds(v: Addr, prot: Prot, e: Entry)
    requires PageOf(v) == v && StandsFor(e, v, prot)
    ensures OnePage(e)
    ensures forall x :: Holds(e, x) <==> PageOf(x) == v && (prot.read || prot.write || prot.exec)
    ensures forall x :: Holds(e, x) ==> Index(x) == Index(v)
  {
    EntryHoldsAt(v, prot, e, v);
    forall x ensures Holds(e, x) <==> PageOf(x) == v && (prot.read || prot.write || prot.exec)
             ensures Holds(e, x) ==> Index(x) == Index(v)
    {
      EntryHoldsAt(v, prot, e, x);
      EntryIndex(v, prot, e, x);
    }
  }

  lemma EntryIndex(v: Addr, prot: Prot, e: Entry, x: Addr)
    requires PageOf(v) == v && StandsFor(e, v, prot)
    ensures Holds(e, x) ==> Index(x) == Index(v)
  {
    EntryHoldsAt(v, prot, e, x);
    if PageOf(x) == v {
      SamePageSameIndex(x, v);
    }
  }

  /** The grown region; m is the mask of the new page. */
  method NextRegion(addr: Addr, mask0: Addr, v: Addr, m: Addr, ghost large: set<Region>)
    returns (addr': Addr, mask: Addr)
    requires Tracked(addr, mask0, large) && addr != 0xffff_ffff && Usable(m)
    ensures addr' != 0xffff_ffff && Tracked(addr', mask, large + {Region(v, m)}) && Tightest(mask, addr, v, m & mask0)
  {
    mask := WidenBoth(addr, v, m, mask0);
    addr' := addr & mask;
    GrowRegion(addr, mask0, large, Region(v, m), addr', mask);
  }

  method WidenBoth(addr: Addr, v: Addr, m: Addr, mask0: Addr) returns (mask: Addr)
    requires Usable(m) && Usable(mask0)
    ensures Tightest(mask, addr, v, m & mask0) && Usable(mask)
  {
    UsableBoth(m, mask0);
    mask := Widen(addr, v, m & mask0);
  }

  lemma FirstRegion(p: Region, addr: Addr)
    requires Usable(p.mask) && addr == p.v & p.mask
    ensures addr != 0xffff_ffff && Tracked(addr, p.mask, {p})
  {
    NotNone(p.v, p.mask, addr);
    SelfContains(p, addr);
    OneTracked(p, addr);
  }

  lemma SelfContains(p: Region, addr: Addr)
    requires addr == p.v & p.mask
    ensures Contains(addr, p.mask, p)
  {
  }

  lemma OneTracked(p: Region, addr: Addr)
    requires Usable(p.mask) && addr != 0xffff_ffff && Contains(addr, p.mask, p)
    ensures Tracked(addr, p.mask, {p})
  {
  }

  lemma UsableBoth(a: Addr, b: Addr)
    requires Usable(a) && Usable(b)
    ensures Usable(a & b)
  {
    AndIsHigh(a, b);
    LowClear(a, b);
  }

  /** mask is the finest one below m0 under which a and b agree. */
  ghost predicate Tightest(mask: Addr, a: Addr, b: Addr, m0: Addr) {
    Joins(mask, a, b, m0) && forall k :: Joins(k, a, b, m0) ==> Coarser(k, mask)
  }

  /** The widening loop. */
  method Widen(a: Addr, b: Addr, m0: Addr) returns (mask: Addr)
    requires Usable(m0)
    ensures Tightest(mask, a, b, m0) && Usable(mask)
  {
    mask := m0;
    while (a ^ b) & mask != 0
      invariant HighBits(mask) && mask & 0xfff == 0 && Coarser(mask, m0)
      invariant forall k :: Joins(k, a, b, m0) ==> Coarser(k, mask)
      decreases mask
    {
      ShiftIsHigh(mask);
      LowClear(mask, mask);
      CoarserTrans(mask << 1, mask, m0);
      forall k | Joins(k, a, b, m0) ensures Coarser(k, mask << 1) {
        JoinsShift(k, a, b, m0, mask);
      }
      mask := mask << 1;
    }
  }

  lemma JoinFacts(addr: Addr, v: Addr, m: Addr, n: Addr, mask': Addr)
    requires Joins(mask', addr, v, m & n)
    ensures Coarser(mask', m) && Coarser(mask', n) && addr & mask' == v & mask'
  {
    CoarserBoth(m, n);
    CoarserTrans(mask', m & n, n);
    CoarserTrans(mask', m & n, m);
    AgreeOn(addr, v, mask');
  }

  lemma GrowRegion(addr: Addr, mask: Addr, large: set<Region>, p: Region, addr': Addr, mask': Addr)
    requires Tracked(addr, mask, large) && addr != 0xffff_ffff && Joins(mask', addr, p.v, p.mask & mask)
    requires Usable(mask')
    requires addr' == addr & mask'
    ensures addr' != 0xffff_ffff && Tracked(addr', mask', large + {p})
  {
    NotNone(addr, mask', addr');
    JoinFacts(addr, p.v, p.mask, mask, mask');
    TakenIn(p, addr', mask');
    forall q | q in large ensures Contains(addr', mask', q) {
      Widened(addr, mask, q, addr', mask');
    }
  }
}
