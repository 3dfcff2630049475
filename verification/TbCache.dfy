/**
  The cache of translated blocks (translate-all.c, cpu-exec.c): allocation, linking, lookup
  and invalidation over all the indexes at once.
 */
module TbCache {
  import opened Collections
  import opened TbIndex
  import B = TbBitmap
  import J = TbJumps

  const SMC_BITMAP_USE_THRESHOLD: nat := 10
  const CODE_GEN_ALIGN: nat := 16
  const BITMAP_SIZE: nat := 512

  type Cache = map<(nat, nat), Ptr>

  /** Every jump-cache slot holds a linked block whose pc hashes to that slot. */
  ghost predicate CacheOk(m: Memory, live: set<Ptr>, cache: Cache, cpus: nat, hash: nat -> nat) {
    forall c, h :: (c, h) in cache ==>
      c < cpus && cache[(c, h)] in live && cache[(c, h)] in m && hash(m[cache[(c, h)]].pc) == h
  }

  /** bits says of every byte of the page whether a block of list s has code there. */
  ghost predicate Exact(m: Memory, s: seq<Link>, bits: seq<B.byte>) {
    |bits| == BITMAP_SIZE && forall o: nat :: o < PAGE ==> (B.BitAt(bits, o) <==> CoveredBy(m, s, o))
  }

  type Bitmaps = map<nat, seq<B.byte>>

  ghost predicate BitmapsOk(m: Memory, lists: Lists, bitmaps: Bitmaps) {
    forall p :: p in bitmaps ==> Exact(m, ListOf(lists, Page(p)), bitmaps[p])
  }

  /** The generated code of block i lies between base and ptr. */
  ghost predicate CodeIn(m: Memory, ends: map<Ptr, nat>, i: Ptr, base: nat, ptr: nat) {
    i in m && i in ends && base <= m[i].tcPtr < ends[i] <= ptr
  }

  ghost predicate CodeBefore(m: Memory, ends: map<Ptr, nat>, i: Ptr, j: Ptr) {
    i in ends && j in m && ends[i] <= m[j].tcPtr
  }

  /**
    Generated code of the allocated blocks, up to `ends`, lies in the order of the block array
    without overlapping.
   */
  ghost predicate LayoutOk(m: Memory, ends: map<Ptr, nat>, nb: nat, base: nat, ptr: nat) {
    && base <= ptr && (nb == 0 ==> ptr == base) && (nb > 0 ==> 0 in m && m[0].tcPtr == base)
    && (forall i :: 0 <= i < nb ==> CodeIn(m, ends, i, base, ptr))
    && (forall i, j :: 0 <= i < j < nb ==> CodeBefore(m, ends, i, j))
  }

  lemma SameTrans(a: Memory, b: Memory, c: Memory)
    requires Same(a, b) && Same(b, c)
    ensures Same(a, c)
  {
  }

  lemma SameThreaded(m: Memory, m': Memory, on: set<Link>, live: set<Ptr>)
    requires Threaded(m, on, live) && Same(m, m')
    ensures Threaded(m', on, live)
  {
    assert forall l :: IsField(m', l) <==> IsField(m, l);
  }

  lemma SameLayout(m: Memory, m': Memory, ends: map<Ptr, nat>, nb: nat, base: nat, ptr: nat)
    requires LayoutOk(m, ends, nb, base, ptr)
    requires forall t :: t in m && t < nb ==> t in m' && m'[t].tcPtr == m[t].tcPtr
    ensures LayoutOk(m', ends, nb, base, ptr)
  {
    forall i | 0 <= i < nb ensures CodeIn(m', ends, i, base, ptr) {
      assert CodeIn(m, ends, i, base, ptr);
    }
    forall i, j | 0 <= i < j < nb ensures CodeBefore(m', ends, i, j) {
      assert CodeBefore(m, ends, i, j);
    }
  }

  lemma SameCache(m: Memory, m': Memory, live: set<Ptr>, live': set<Ptr>, cache: Cache, cpus: nat, hash: nat -> nat)
    requires CacheOk(m, live, cache, cpus, hash) && Same(m, m') && live <= live'
    ensures CacheOk(m', live', cache, cpus, hash)
  {
  }

  lemma ExactSame(m: Memory, m': Memory, s: seq<Link>, bits: seq<B.byte>)
    requires Exact(m, s, bits)
    requires forall l :: l in s ==> IsField(m, l) && IsField(m', l) && Fixed(m'[l.tb], m[l.tb])
    ensures Exact(m', s, bits)
  {
    forall o: nat | o < PAGE ensures B.BitAt(bits, o) <==> CoveredBy(m', s, o) {
      CoverSame(m, m', s, o);
    }
  }

  /** Pages whose list did not change keep an exact bitmap. */
  lemma BitmapsSame(m: Memory, m': Memory, heads: Heads, lists: Lists, on: set<Link>, lists': Lists,
                    bitmaps: Bitmaps, bitmaps': Bitmaps)
    requires BitmapsOk(m, lists, bitmaps) && Indexed(m, heads, lists, on)
    requires forall l :: l in on && IsField(m, l) ==> IsField(m', l) && Fixed(m'[l.tb], m[l.tb])
    requires forall p :: p in bitmaps' ==>
      p in bitmaps && bitmaps'[p] == bitmaps[p] && ListOf(lists', Page(p)) == ListOf(lists, Page(p))
    ensures BitmapsOk(m', lists', bitmaps')
  {
    forall p | p in bitmaps' ensures Exact(m', ListOf(lists', Page(p)), bitmaps'[p]) {
      assert ListOk(m, heads, lists, on, Page(p));
      ExactSame(m, m', ListOf(lists, Page(p)), bitmaps[p]);
    }
  }

  /** The lists once block tb is off all of them. */
  ghost predicate AllDropped(lists: Lists, lists': Lists, tb: Ptr) {
    forall id :: ListOf(lists', id) == DropTb(ListOf(lists, id), tb)
  }

  function DropFrom(lists: Lists, id: ListId, l: Link): Lists { lists[id := Drop(ListOf(lists, id), l)] }

  /** The entries of a block in the order in which tb_page_remove finds them. */
  function FirstEntry(b: Tb, tb: Ptr): Link { if Doubled(b) then To(tb, 1) else To(tb, 0) }

  function SecondEntry(b: Tb, tb: Ptr): Link { if Doubled(b) then To(tb, 0) else To(tb, 1) }

  /** The fields of block b are dropped from their lists. */
  function DropFields(m: Memory, lists: Lists, tb: Ptr): Lists
    requires tb in m
  {
    var l1 := DropFrom(lists, Home(m, To(tb, 2)), To(tb, 2));
    var l2 := DropFrom(l1, Home(m, To(tb, 0)), FirstEntry(m[tb], tb));
    if TwoPages(m[tb]) then DropFrom(l2, Home(m, To(tb, 1)), SecondEntry(m[tb], tb)) else l2
  }

  /** A field that is alone on its list. */
  lemma AloneOnList(m: Memory, heads: Heads, lists: Lists, on: set<Link>, live: set<Ptr>, tb: Ptr, n: nat)
    requires Indexed(m, heads, lists, on) && Threaded(m, on, live) && tb in live && IsField(m, To(tb, n))
    requires n == 2 || !Doubled(m[tb])
    ensures var s := ListOf(lists, Home(m, To(tb, n)));
      FirstFor(s, tb) == To(tb, n) && DropTb(s, tb) == Drop(s, To(tb, n))
  {
    var id := Home(m, To(tb, n));
    assert ListOk(m, heads, lists, on, id);
    EntriesOf(m, heads, lists, on, live, id, To(tb, n));
    OneEntry(ListOf(lists, id), To(tb, n));
  }

  /** The two entries of a block whose pages are the same. */
  lemma BothOnList(m: Memory, heads: Heads, lists: Lists, on: set<Link>, live: set<Ptr>, tb: Ptr)
    requires Indexed(m, heads, lists, on) && Threaded(m, on, live) && AllPaired(m, lists, live)
    requires tb in live && Doubled(m[tb])
    ensures var s := ListOf(lists, Home(m, To(tb, 0)));
      && FirstFor(s, tb) == To(tb, 1) && FirstFor(Drop(s, To(tb, 1)), tb) == To(tb, 0)
      && DropTb(s, tb) == Drop(Drop(s, To(tb, 1)), To(tb, 0))
  {
    var id := Home(m, To(tb, 0));
    assert ListOk(m, heads, lists, on, id);
    EntriesOf(m, heads, lists, on, live, id, To(tb, 0));
    TwoEntries(ListOf(lists, id), tb);
  }

  /** What the removals of tb_phys_invalidate find. */
  lemma TakeOffReady(m: Memory, heads: Heads, lists: Lists, on: set<Link>, live: set<Ptr>, tb: Ptr)
    requires Indexed(m, heads, lists, on) && Threaded(m, on, live) && AllPaired(m, lists, live) && tb in live
    ensures tb in m && m[tb].page1 >= -1
    ensures var first := FirstEntry(m[tb], tb);
      && FirstFor(ListOf(lists, Home(m, To(tb, 2))), tb) == To(tb, 2)
      && FirstFor(ListOf(lists, Home(m, To(tb, 0))), tb) == first
      && (TwoPages(m[tb]) ==>
            FirstFor(ListOf(DropFrom(lists, Home(m, To(tb, 0)), first), Home(m, To(tb, 1))), tb) ==
              SecondEntry(m[tb], tb))
    ensures AllDropped(lists, DropFields(m, lists, tb), tb)
  {
    var b := m[tb];
    AloneOnList(m, heads, lists, on, live, tb, 2);
    if Doubled(b) {
      BothOnList(m, heads, lists, on, live, tb);
    } else {
      AloneOnList(m, heads, lists, on, live, tb, 0);
      if TwoPages(b) {
        AloneOnList(m, heads, lists, on, live, tb, 1);
        assert Shaped(b) && b.page0 / PAGE != b.page1 / PAGE;
      }
    }
    var lists' := DropFields(m, lists, tb);
    forall id ensures ListOf(lists', id) == DropTb(ListOf(lists, id), tb) {
      if id != Home(m, To(tb, 0)) && id != Home(m, To(tb, 2)) && (TwoPages(b) ==> id != Home(m, To(tb, 1))) {
        assert ListOk(m, heads, lists, on, id);
        DropTbAbsent(ListOf(lists, id), tb);
      }
    }
  }

  /** A block that is not linked is on no list. */
  lemma OnNoList(m: Memory, heads: Heads, lists: Lists, on: set<Link>, live: set<Ptr>, tb: Ptr, id: ListId)
    requires Indexed(m, heads, lists, on) && Threaded(m, on, live) && tb !in live
    ensures FirstFor(ListOf(lists, id), tb) == Null
  {
    assert ListOk(m, heads, lists, on, id);
  }

  lemma PairsDropped(m: Memory, m': Memory, lists: Lists, lists': Lists, live: set<Ptr>, tb: Ptr)
    requires AllPaired(m, lists, live) && Same(m, m') && AllDropped(lists, lists', tb)
    ensures AllPaired(m', lists', live - {tb})
  {
    forall t | t in live - {tb} && t in m' && Doubled(m'[t])
      ensures Paired(ListOf(lists', Page(m'[t].page0 / PAGE)), t)
    {
      PairedDrop(ListOf(lists, Page(m[t].page0 / PAGE)), t, tb);
    }
  }

  lemma PairedMore(s: seq<Link>, l: Link, t: Ptr)
    requires Paired(s, t)
    ensures Paired([l] + s, t)
  {
    var i :| 0 <= i < |s| - 1 && s[i] == To(t, 1) && s[i + 1] == To(t, 0);
    var s' := [l] + s;
    assert s'[i + 1] == To(t, 1) && s'[i + 1 + 1] == To(t, 0);
  }

  /** Pushing fields keeps the pairs together, and makes one of the two entries of tb. */
  lemma PairsPushed(m: Memory, m': Memory, lists: Lists, live: set<Ptr>, tb: Ptr)
    requires AllPaired(m, lists, live) && Same(m, m') && tb in m
    ensures AllPaired(m', PushFields(m, lists, tb), live + {tb})
  {
    var lists' := PushFields(m, lists, tb);
    forall t | t in live + {tb} && t in m' && Doubled(m'[t])
      ensures Paired(ListOf(lists', Page(m'[t].page0 / PAGE)), t)
    {
      var id := Page(m[t].page0 / PAGE);
      var s := ListOf(lists, id);
      if t == tb {
        var s' := ListOf(lists', id);
        assert s'[0] == To(t, 1) && s'[0 + 1] == To(t, 0);
      } else {
        PairedMore(s, To(tb, 0), t);
        PairedMore(s, To(tb, 1), t);
        PairedMore([To(tb, 0)] + s, To(tb, 1), t);
      }
    }
  }

  function FieldsOff(m: Memory, on: set<Link>, tb: Ptr): set<Link>
    requires tb in m
  {
    on - {To(tb, 2)} - {To(tb, 0)} - (if TwoPages(m[tb]) then {To(tb, 1)} else {})
  }

  lemma UnlinkedFields(m: Memory, m': Memory, on: set<Link>, live: set<Ptr>, tb: Ptr)
    requires Threaded(m, on, live) && tb in live && Same(m, m')
    ensures Threaded(m', FieldsOff(m, on, tb), live - {tb})
  {
  }

  /** A block that is not linked may get any contents. */
  lemma RewriteFree(m: Memory, tb: Ptr, b: Tb, heads: Heads, lists: Lists, on: set<Link>, live: set<Ptr>,
                    bitmaps: Bitmaps, cache: Cache, cpus: nat, hash: nat -> nat)
    requires Indexed(m, heads, lists, on) && Threaded(m, on, live) && tb !in live
    requires BitmapsOk(m, lists, bitmaps) && CacheOk(m, live, cache, cpus, hash)
    ensures Indexed(m[tb := b], heads, lists, on) && Threaded(m[tb := b], on, live)
    ensures BitmapsOk(m[tb := b], lists, bitmaps) && CacheOk(m[tb := b], live, cache, cpus, hash)
  {
    FreeField(m, m[tb := b], heads, lists, on);
    BitmapsSame(m, m[tb := b], heads, lists, on, lists, bitmaps, bitmaps);
  }

  lemma LayoutGrows(m: Memory, ends: map<Ptr, nat>, nb: nat, base: nat, ptr: nat, b: Tb, end: nat, ptr': nat)
    requires LayoutOk(m, ends, nb, base, ptr) && b.tcPtr == ptr && ptr < end <= ptr'
    ensures LayoutOk(m[nb := b], ends[nb := end], nb + 1, base, ptr')
  {
    var m', ends' := m[nb := b], ends[nb := end];
    forall i | 0 <= i < nb ensures CodeIn(m', ends', i, base, ptr') {
      assert CodeIn(m, ends, i, base, ptr);
    }
    forall i, j | 0 <= i < j < nb + 1 ensures CodeBefore(m', ends', i, j) {
      assert CodeIn(m, ends, i, base, ptr);
      assert j < nb ==> CodeBefore(m, ends, i, j);
    }
  }

  lemma LayoutShrinks(m: Memory, ends: map<Ptr, nat>, nb: nat, base: nat, ptr: nat)
    requires LayoutOk(m, ends, nb, base, ptr) && nb > 0
    ensures nb - 1 in m && LayoutOk(m, ends, nb - 1, base, m[nb - 1].tcPtr)
  {
    assert CodeIn(m, ends, nb - 1, base, ptr);
    assert nb > 1 ==> CodeBefore(m, ends, 0, nb - 1);
    var ptr' := m[nb - 1].tcPtr;
    forall i | 0 <= i < nb - 1 ensures CodeIn(m, ends, i, base, ptr') {
      assert CodeIn(m, ends, i, base, ptr) && CodeBefore(m, ends, i, nb - 1);
    }
  }

  lemma AllInPlace(m: Memory, ends: map<Ptr, nat>, nb: nat, base: nat, ptr: nat)
    requires LayoutOk(m, ends, nb, base, ptr)
    ensures forall i :: 0 <= i < nb ==> i in m && i in ends && base <= m[i].tcPtr < ends[i] <= ptr
    ensures forall i, j :: 0 <= i < j < nb ==> i in ends && j in m && ends[i] <= m[j].tcPtr
  {
    forall i | 0 <= i < nb ensures i in m && i in ends && base <= m[i].tcPtr < ends[i] <= ptr {
      assert CodeIn(m, ends, i, base, ptr);
    }
    forall i, j | 0 <= i < j < nb ensures i in ends && j in m && ends[i] <= m[j].tcPtr {
      assert CodeBefore(m, ends, i, j);
    }
  }

  lemma Ascending(m: Memory, ends: map<Ptr, nat>, nb: nat, base: nat, ptr: nat)
    requires LayoutOk(m, ends, nb, base, ptr)
    ensures (forall i :: 0 <= i < nb ==> i in m) && (nb > 0 ==> m[0].tcPtr == base)
  {
    AllInPlace(m, ends, nb, base, ptr);
  }

  lemma NoCodeAt(m: Memory, ends: map<Ptr, nat>, nb: nat, base: nat, ptr: nat, p: nat)
    requires LayoutOk(m, ends, nb, base, ptr) && !(base <= p < ptr)
    ensures forall i :: 0 <= i < nb && i in m && i in ends ==> !(m[i].tcPtr <= p < ends[i])
  {
    AllInPlace(m, ends, nb, base, ptr);
  }

  /** Only block tb can have code at p. */
  lemma OnlyCodeAt(m: Memory, ends: map<Ptr, nat>, nb: nat, base: nat, ptr: nat, tb: Ptr, p: nat)
    requires LayoutOk(m, ends, nb, base, ptr) && tb < nb && tb in m && m[tb].tcPtr <= p
    requires m[tb].tcPtr == p || (tb + 1 < nb ==> tb + 1 in m && p < m[tb + 1].tcPtr)
    ensures tb + 1 < nb ==> tb + 1 in m && p < m[tb + 1].tcPtr
    ensures forall i :: 0 <= i < nb && i in m && i in ends && m[i].tcPtr <= p < ends[i] ==> i == tb
  {
    AllInPlace(m, ends, nb, base, ptr);
    forall i | 0 <= i < nb && i != tb ensures !(m[i].tcPtr <= p < ends[i]) {
      assert i < tb ==> ends[i] <= m[tb].tcPtr;
      assert i > tb + 1 ==> ends[tb + 1] <= m[i].tcPtr;
    }
  }

  function AlignUp(x: nat): (r: nat)
    ensures x <= r < x + CODE_GEN_ALIGN && r % CODE_GEN_ALIGN == 0
  {
    (x + CODE_GEN_ALIGN - 1) / CODE_GEN_ALIGN * CODE_GEN_ALIGN
  }

  function PushOn(lists: Lists, id: ListId, l: Link): Lists { lists[id := [l] + ListOf(lists, id)] }

  /** The fields of a block at the front of their lists. */
  function PushFields(m: Memory, lists: Lists, tb: Ptr): Lists
    requires tb in m
  {
    var l1 := PushOn(lists, Home(m, To(tb, 2)), To(tb, 2));
    var l2 := PushOn(l1, Home(m, To(tb, 0)), To(tb, 0));
    if TwoPages(m[tb]) then PushOn(l2, Home(m, To(tb, 1)), To(tb, 1)) else l2
  }

  function FieldsOn(m: Memory, on: set<Link>, tb: Ptr): set<Link>
    requires tb in m
  {
    on + {To(tb, 2)} + {To(tb, 0)} + (if TwoPages(m[tb]) then {To(tb, 1)} else {})
  }

  lemma LinkedFields(m: Memory, m': Memory, on: set<Link>, live: set<Ptr>, tb: Ptr)
    requires Threaded(m, on, live) && tb in m && Shaped(m[tb]) && Same(m, m')
    ensures Threaded(m', FieldsOn(m, on, tb), live + {tb})
  {
  }

  function PagesOf(b: Tb): (r: set<nat>) { {b.page0 / PAGE} + if TwoPages(b) then {b.page1 / PAGE} else {} }

  function TrimPages(bitmaps: Bitmaps, b: Tb): Bitmaps {
    if TwoPages(b) then bitmaps - {b.page0 / PAGE} - {b.page1 / PAGE} else bitmaps - {b.page0 / PAGE}
  }

  /** The bitmaps after the lists of b's pages changed. */
  lemma BitmapsTrimmed(m: Memory, m': Memory, heads: Heads, lists: Lists, on: set<Link>, lists': Lists,
                       bitmaps: Bitmaps, b: Tb)
    requires BitmapsOk(m, lists, bitmaps) && Indexed(m, heads, lists, on) && Same(m, m')
    requires forall p: nat :: p !in PagesOf(b) ==> ListOf(lists', Page(p)) == ListOf(lists, Page(p))
    ensures BitmapsOk(m', lists', TrimPages(bitmaps, b))
    ensures forall p :: p in TrimPages(bitmaps, b) ==> p in bitmaps
  {
    BitmapsSame(m, m', heads, lists, on, lists', bitmaps, TrimPages(bitmaps, b));
  }

  lemma PagesTrimmed(m: Memory, m': Memory, heads: Heads, lists: Lists, on: set<Link>, lists': Lists,
                     bitmaps: Bitmaps, tb: Ptr)
    requires BitmapsOk(m, lists, bitmaps) && Indexed(m, heads, lists, on) && Same(m, m')
    requires tb in m && (lists' == DropFields(m, lists, tb) || lists' == PushFields(m, lists, tb))
    ensures BitmapsOk(m', lists', TrimPages(bitmaps, m[tb]))
    ensures forall p :: p in TrimPages(bitmaps, m[tb]) ==> p in bitmaps
  {
    OtherPages(m, lists, lists', tb);
    BitmapsTrimmed(m, m', heads, lists, on, lists', bitmaps, m[tb]);
  }

  /** The jump cache without block tb. */
  function CacheWithout(cache: Cache, tb: Ptr): (r: Cache) { map k | k in cache && cache[k] != tb :: cache[k] }

  lemma CacheDropped(m: Memory, m': Memory, live: set<Ptr>, cache: Cache, cpus: nat, hash: nat -> nat, tb: Ptr)
    requires CacheOk(m, live, cache, cpus, hash) && Same(m, m')
    ensures CacheOk(m', live - {tb}, CacheWithout(cache, tb), cpus, hash)
  {
  }

  lemma OtherPages(m: Memory, lists: Lists, lists': Lists, tb: Ptr)
    requires tb in m && (lists' == DropFields(m, lists, tb) || lists' == PushFields(m, lists, tb))
    ensures forall p: nat :: p !in PagesOf(m[tb]) ==> ListOf(lists', Page(p)) == ListOf(lists, Page(p))
  {
  }

  class TbCache {
    const jmpHash: nat -> nat
    const cpus: nat
    const maxBlocks: nat
    const maxCode: nat
    const codeBase: nat
    const jumps: J.JumpTable

    var mem: Memory
    var heads: Heads
    var bitmaps: Bitmaps
    var writes: map<nat, nat>
    var cache: Cache
    var nbTbs: nat
    var codePtr: nat

    ghost var lists: Lists
    ghost var on: set<Link>
    ghost var live: set<Ptr>
    ghost var ends: map<Ptr, nat>

    /** All lists are well formed and hold exactly `on`; other parts of the state say what is linked. */
    ghost predicate ListsOk()
      reads this
    {
      Indexed(mem, heads, lists, on)
    }

    /**
      Each linked block is on the chain of its physical pc and on the list of each of its
      pages, exactly once, and nothing else is; the jump cache and the bitmaps speak of the
      same set of blocks.
     */
    ghost predicate Listing()
      reads this
    {
      && ListsOk() && Threaded(mem, on, live) && AllPaired(mem, lists, live)
      && (forall t :: t in live ==> t < nbTbs) && nbTbs <= maxBlocks
      && CacheOk(mem, live, cache, cpus, jmpHash)
      && BitmapsOk(mem, lists, bitmaps)
      && (forall p :: p in bitmaps ==> Page(p) in heads)
    }

    ghost predicate IndexesOk()
      reads this
    {
      Listing() && LayoutOk(mem, ends, nbTbs, codeBase, codePtr)
    }

    /** The state between operations; the jump rings, too, are those of the linked blocks. */
    ghost predicate Valid()
      reads this, jumps
    {
      maxBlocks > 0 && maxCode > 0 && IndexesOk() && jumps.Valid() && jumps.rings.Keys == live
    }

    constructor (hash: nat -> nat, cpus: nat, maxBlocks: nat, maxCode: nat, codeBase: nat)
      requires maxBlocks > 0 && maxCode > 0
      ensures Valid() && live == {} && nbTbs == 0 && fresh(jumps)
    {
      this.jmpHash, this.cpus, this.maxBlocks, this.maxCode, this.codeBase := hash, cpus, maxBlocks, maxCode, codeBase;
      mem, heads, bitmaps, writes, cache := map[], map[], map[], map[], map[];
      nbTbs, codePtr := 0, codeBase;
      lists, on, live, ends := map[], {}, {}, map[];
      jumps := new J.JumpTable();
      new;
      assert forall id :: ListOk(mem, heads, lists, on, id);
    }

    /** What a lookup may change, apart from the jump cache. */
    ghost function Snapshot(): View
      reads this, jumps
    {
      View(mem, live, lists, jumps.rings)
    }

    // ----- Lists -------------------------------------------------------------

    /**
      The walk of tb_hash_remove and tb_page_remove: the first entry of tb, and the one before
      it.  Without one the walk runs into the NULL at the end.
     */
    method Walk(id: ListId, tb: Ptr) returns (prev: Link, cur: Link, ghost i: nat)
      requires ListsOk()
      ensures cur == FirstFor(ListOf(lists, id), tb)
      ensures cur != Null ==> i < |ListOf(lists, id)| && ListOf(lists, id)[i] == cur
      ensures cur != Null ==> prev == if i == 0 then Null else ListOf(lists, id)[i - 1]
      ensures prev != Null ==> prev.tb != tb
    {
      ghost var s := ListOf(lists, id);
      assert ListOk(mem, heads, lists, on, id);
      prev := Null;
      cur := HeadOf(heads, id);
      i := 0;
      assert s[0..] == s;
      while cur != Null && cur.tb != tb
        invariant i <= |s| && cur == (if i < |s| then s[i] else Null) && List(mem, cur, s[i..])
        invariant prev == if i == 0 then Null else s[i - 1]
        invariant FirstFor(s, tb) == FirstFor(s[i..], tb) && (prev != Null ==> prev.tb != tb)
        decreases |s| - i
      {
        assert s[i + 1..] == s[i..][1..];
        prev := cur;
        cur := Val(mem, cur);
        i := i + 1;
      }
    }

    /** Taking the i-th entry out of a list, given the entry before it. */
    method CutAt(id: ListId, prev: Link, cur: Link, ghost i: nat)
      requires ListsOk() && i < |ListOf(lists, id)| && cur == ListOf(lists, id)[i]
      requires prev == if i == 0 then Null else ListOf(lists, id)[i - 1]
      modifies this`mem, this`heads, this`lists, this`on
      ensures ListsOk() && Same(old(mem), mem) && heads.Keys >= old(heads).Keys
      ensures lists == DropFrom(old(lists), id, cur) && on == old(on) - {cur}
      ensures cur in old(on) && IsField(mem, cur) && Home(mem, cur) == id
      ensures forall t :: t in mem && !(prev.To? && prev.tb == t) ==> mem[t] == old(mem)[t]
    {
      RemoveNode(mem, heads, lists, on, id, i);
      if prev == Null {
        heads := heads[id := Val(mem, cur)];
      } else {
        mem := SetVal(mem, prev, Val(mem, cur));
      }
      lists := lists[id := Drop(ListOf(lists, id), cur)];
      on := on - {cur};
    }

    /** tb_hash_remove, tb_page_remove; false where the original follows the NULL at the end of the list. */
    method RemoveFrom(id: ListId, tb: Ptr) returns (ok: bool, ghost l: Link)
      requires ListsOk() && tb in mem
      modifies this`mem, this`heads, this`lists, this`on
      ensures ListsOk() && Same(old(mem), mem) && heads.Keys >= old(heads).Keys && mem[tb] == old(mem)[tb]
      ensures l == FirstFor(ListOf(old(lists), id), tb) && (ok <==> l != Null)
      ensures lists == if ok then DropFrom(old(lists), id, l) else old(lists)
      ensures on == if ok then old(on) - {l} else old(on)
    {
      var prev, cur;
      ghost var i;
      prev, cur, i := Walk(id, tb);
      ok, l := cur != Null, cur;
      if ok {
        CutAt(id, prev, cur, i);
      }
    }

    /** A free field goes to the front of its list. */
    method Push(l: Link, id: ListId)
      requires ListsOk() && IsField(mem, l) && l !in on && Home(mem, l) == id
      modifies this`mem, this`heads, this`lists, this`on
      ensures ListsOk() && Same(old(mem), mem) && Others(old(mem), mem, l.tb)
      ensures lists == old(lists)[id := [l] + ListOf(old(lists), id)] && on == old(on) + {l}
      ensures heads.Keys == old(heads).Keys + {id}
      ensures Val(mem, l) == HeadOf(old(heads), id) && HeadOf(heads, id) == l
    {
      PushFront(mem, heads, lists, on, l, id);
      var v := HeadOf(heads, id);
      mem := SetVal(mem, l, v);
      heads := heads[id := l];
      lists := lists[id := [l] + ListOf(lists, id)];
      on := on + {l};
    }

    /** invalidate_page_bitmap */
    method InvalidateBitmap(p: nat)
      modifies this`bitmaps, this`writes
      ensures bitmaps == old(bitmaps) - {p} && writes == old(writes)[p := 0]
    {
      bitmaps := bitmaps - {p};
      writes := writes[p := 0];
    }

    /** The list part of tb_phys_invalidate; it fails at once for a block that is not linked. */
    method TakeOffLists(tb: Ptr) returns (ok: bool)
      requires ListsOk() && Threaded(mem, on, live) && AllPaired(mem, lists, live) && tb in mem
      modifies this`mem, this`heads, this`lists, this`on, this`bitmaps, this`writes
      ensures ok <==> tb in live
      ensures ok ==> ListsOk() && Same(old(mem), mem) && Threaded(mem, on, live - {tb}) && mem[tb] == old(mem)[tb]
      ensures ok ==> AllDropped(old(lists), lists, tb) && heads.Keys >= old(heads).Keys
      ensures ok ==>
        lists == DropFields(old(mem), old(lists), tb) && bitmaps == TrimPages(old(bitmaps), old(mem)[tb])
    {
      var b := mem[tb];
      var h := PhysHash(b.page0 + b.pc % PAGE);
      if tb in live {
        TakeOffReady(mem, heads, lists, on, live, tb);
      } else {
        OnNoList(mem, heads, lists, on, live, tb, Bucket(h));
      }
      ghost var l;
      ok, l := RemoveFrom(Bucket(h), tb);
      if !ok {
        return;
      }
      ok, l := RemoveFrom(Page(b.page0 / PAGE), tb);
      InvalidateBitmap(b.page0 / PAGE);
      if b.page1 != -1 {
        ok, l := RemoveFrom(Page(b.page1 / PAGE), tb);
        InvalidateBitmap(b.page1 / PAGE);
      }
      assert lists == DropFields(old(mem), old(lists), tb);
      assert on == FieldsOff(old(mem), old(on), tb);
      UnlinkedFields(old(mem), mem, old(on), live, tb);
    }

    /** The jump-cache part: only the slot that tb's pc hashes to is looked at, on every cpu. */
    method TakeOffCaches(tb: Ptr)
      requires CacheOk(mem, live, cache, cpus, jmpHash) && tb in mem
      modifies this`cache
      ensures cache == CacheWithout(old(cache), tb)
    {
      var h := jmpHash(mem[tb].pc);
      var c: nat := 0;
      while c < cpus
        invariant c <= cpus
        invariant cache == map k: (nat, nat) |
          k in old(cache) && !(old(cache)[k] == tb && k.0 < c && k.1 == h) :: old(cache)[k]
      {
        if (c, h) in cache && cache[(c, h)] == tb {
          cache := cache - {(c, h)};
        }
        c := c + 1;
      }
    }

    /** tb_phys_invalidate up to the jump lists */
    method Unindex(tb: Ptr) returns (ok: bool)
      requires IndexesOk() && tb in mem
      modifies this
      ensures ok <==> tb in old(live)
      ensures ok ==> IndexesOk() && live == old(live) - {tb} && Same(old(mem), mem) && mem[tb] == old(mem)[tb]
      ensures ok ==> AllDropped(old(lists), lists, tb) && cache == CacheWithout(old(cache), tb)
      ensures ok ==> heads.Keys >= old(heads).Keys && nbTbs == old(nbTbs) && codePtr == old(codePtr)
    {
      ok := TakeOffLists(tb);
      if !ok {
        return;
      }
      PagesTrimmed(old(mem), mem, old(heads), old(lists), old(on), lists, old(bitmaps), tb);
      PairsDropped(old(mem), mem, old(lists), lists, live, tb);
      SameLayout(old(mem), mem, ends, nbTbs, codeBase, codePtr);
      SameCache(old(mem), mem, live, live, cache, cpus, jmpHash);
      TakeOffCaches(tb);
      CacheDropped(old(mem), mem, live, old(cache), cpus, jmpHash, tb);
      live := live - {tb};
    }

    /** tb_phys_invalidate(tb, -1); false where the original fails, for a block that is not linked. */
    method PhysInvalidate(tb: Ptr) returns (ok: bool)
      requires Valid() && tb in mem
      modifies this, jumps
      ensures ok <==> tb in old(live)
      ensures ok ==> Valid() && live == old(live) - {tb} && Same(old(mem), mem) && mem[tb] == old(mem)[tb]
      ensures ok ==> AllDropped(old(lists), lists, tb) && cache == CacheWithout(old(cache), tb)
      ensures ok ==> heads.Keys >= old(heads).Keys && nbTbs == old(nbTbs) && codePtr == old(codePtr)
      ensures ok ==>
        jumps.rings == J.RemoveLink(J.RemoveLink(old(jumps.rings), J.To(tb, 0)), J.To(tb, 1)) - {tb}
      ensures ok ==> forall s, n :: s in live && s in jumps.mem && n <= 1 ==> J.Target(jumps.mem, s, n) != Some(tb)
      ensures ok ==> Intact(old(jumps.rings), old(cache), jumps.rings, cache)
    {
      IntactUnlink(mem, jumps.rings, cache, cpus, jmpHash, tb);
      ok := Unindex(tb);
      if ok {
        jumps.Unlink(tb);
      }
    }

    /** tb_alloc_page, with the page address already stored */
    method AllocPage(tb: Ptr, n: nat, p: nat)
      requires ListsOk() && IsField(mem, To(tb, n)) && To(tb, n) !in on && Home(mem, To(tb, n)) == Page(p)
      modifies this`mem, this`heads, this`lists, this`on, this`bitmaps, this`writes
      ensures ListsOk() && Same(old(mem), mem) && Others(old(mem), mem, tb) && heads.Keys >= old(heads).Keys
      ensures lists == PushOn(old(lists), Page(p), To(tb, n)) && on == old(on) + {To(tb, n)}
      ensures bitmaps == old(bitmaps) - {p}
    {
      Push(To(tb, n), Page(p));
      InvalidateBitmap(p);
    }

    /** The list part of tb_link_page. */
    method PutOnLists(tb: Ptr)
      requires ListsOk() && Threaded(mem, on, live) && tb in mem && tb !in live && Shaped(mem[tb])
      modifies this`mem, this`heads, this`lists, this`on, this`bitmaps, this`writes
      ensures ListsOk() && Same(old(mem), mem) && Others(old(mem), mem, tb)
      ensures Threaded(mem, on, live + {tb}) && heads.Keys >= old(heads).Keys
      ensures lists == PushFields(old(mem), old(lists), tb) && bitmaps == TrimPages(old(bitmaps), old(mem)[tb])
    {
      var b := mem[tb];
      var h := PhysHash(b.page0 + b.pc % PAGE);
      Push(To(tb, 2), Bucket(h));
      AllocPage(tb, 0, b.page0 / PAGE);
      if b.page1 != -1 {
        AllocPage(tb, 1, b.page1 / PAGE);
      }
      assert on == FieldsOn(old(mem), old(on), tb);
      LinkedFields(old(mem), mem, old(on), live, tb);
    }

    /** tb_link_page up to the jump lists, with the page addresses already stored */
    method Index(tb: Ptr)
      requires IndexesOk() && tb < nbTbs && tb !in live && tb in mem && Shaped(mem[tb])
      modifies this
      ensures IndexesOk() && live == old(live) + {tb} && nbTbs == old(nbTbs) && codePtr == old(codePtr)
      ensures cache == old(cache) && ends == old(ends)
      ensures Same(old(mem), mem) && Others(old(mem), mem, tb) && lists == PushFields(old(mem), old(lists), tb)
    {
      PutOnLists(tb);
      PagesTrimmed(old(mem), mem, old(heads), old(lists), old(on), lists, old(bitmaps), tb);
      PairsPushed(old(mem), mem, old(lists), live, tb);
      SameLayout(old(mem), mem, ends, nbTbs, codeBase, codePtr);
      SameCache(old(mem), mem, live, live + {tb}, cache, cpus, jmpHash);
      live := live + {tb};
    }

    /** Changing a block that is not linked. */
    method Rewrite(tb: Ptr, b: Tb)
      requires IndexesOk() && tb !in live && tb in mem && b.tcPtr == mem[tb].tcPtr
      modifies this`mem
      ensures IndexesOk() && mem == old(mem)[tb := b]
    {
      RewriteFree(mem, tb, b, heads, lists, on, live, bitmaps, cache, cpus, jmpHash);
      SameLayout(mem, mem[tb := b], ends, nbTbs, codeBase, codePtr);
      mem := mem[tb := b];
    }

    /** tb_link_page */
    method LinkPage(tb: Ptr, physPc: nat, physPage2: int)
      requires Valid() && tb < nbTbs && tb !in live
      requires tb in mem && Shaped(mem[tb].(page0 := physPc / PAGE * PAGE, page1 := physPage2))
      modifies this, jumps
      ensures Valid() && live == old(live) + {tb} && nbTbs == old(nbTbs) && codePtr == old(codePtr)
      ensures cache == old(cache) && ends == old(ends)
      ensures var m1 := old(mem)[tb := old(mem)[tb].(page0 := physPc / PAGE * PAGE, page1 := physPage2)];
        Same(m1, mem) && Others(m1, mem, tb) && lists == PushFields(m1, old(lists), tb)
      ensures jumps.rings == old(jumps.rings)[tb := [J.To(tb, 2)]]
    {
      Rewrite(tb, mem[tb].(page0 := physPc / PAGE * PAGE, page1 := physPage2));
      Index(tb);
      jumps.Link(tb);
    }

    // ----- Allocation ----------------------------------------------------------

    predicate Full()
      reads this
    {
      nbTbs >= maxBlocks || codePtr - codeBase >= maxCode
    }

    /** The block array has room for one more, which is not yet laid out. */
    ghost predicate Allocated(tb: Ptr)
      reads this
    {
      Listing() && tb in mem && tb !in live && nbTbs == tb + 1 && LayoutOk(mem, ends, tb, codeBase, codePtr)
    }

    /** tb_alloc; -1 when a flush is needed. */
    method Alloc(pc: nat) returns (tb: int)
      requires IndexesOk()
      modifies this`nbTbs, this`mem
      ensures tb == -1 <==> old(nbTbs) >= maxBlocks || codePtr - codeBase >= maxCode
      ensures tb == -1 ==> mem == old(mem) && nbTbs == old(nbTbs)
      ensures tb != -1 ==> tb == old(nbTbs) && Allocated(tb) && mem[tb].pc == pc && mem == old(mem)[tb := mem[tb]]
    {
      if nbTbs >= maxBlocks || codePtr - codeBase >= maxCode {
        return -1;
      }
      tb := nbTbs;
      nbTbs := nbTbs + 1;
      var b := if tb in mem then mem[tb].(pc := pc) else Tb(pc, 0, 0, 0, 0, 0, 0, Null, Null, Null);
      RewriteFree(mem, tb, b, heads, lists, on, live, bitmaps, cache, cpus, jmpHash);
      SameLayout(mem, mem[tb := b], ends, tb, codeBase, codePtr);
      mem := mem[tb := b];
    }

    /** tb_free; only a block that has been invalidated may be given back. */
    method Free(tb: Ptr)
      requires Valid()
      modifies this`nbTbs, this`codePtr
      ensures Valid() <==> !(tb in live && tb + 1 == old(nbTbs))
      ensures nbTbs == if tb + 1 == old(nbTbs) then tb else old(nbTbs)
    {
      if nbTbs > 0 && tb == nbTbs - 1 {
        LayoutShrinks(mem, ends, nbTbs, codeBase, codePtr);
        codePtr := mem[tb].tcPtr;
        nbTbs := nbTbs - 1;
      }
    }

    /** tb_flush, but for the rings, which no linked block owns any more */
    method FlushIndexes()
      modifies this
      ensures IndexesOk() && live == {} && lists == map[] && cache == map[] && nbTbs == 0 && codePtr == codeBase
      ensures mem == old(mem)
    {
      nbTbs := 0;
      cache := map[];
      heads := map id | id in heads :: Null;
      bitmaps := map[];
      codePtr := codeBase;
      lists, on, live := map[], {}, {};
      assert forall id :: ListOk(mem, heads, lists, on, id);
    }

    /** tb_flush */
    method Flush()
      requires Valid()
      modifies this, jumps
      ensures Valid() && live == {} && lists == map[] && cache == map[] && nbTbs == 0 && codePtr == codeBase
      ensures mem == old(mem)
      ensures jumps.rings == map[]
    {
      FlushIndexes();
      jumps.Forget();
    }

    /** The allocation part of tb_gen_code, with a flush when there is no room. */
    method AllocOrFlush(pc: nat) returns (tb: Ptr)
      requires Valid()
      modifies this, jumps
      ensures Allocated(tb) && mem[tb].pc == pc && jumps.Valid() && jumps.rings.Keys == live
      ensures old(Full()) ==> live == {} && lists == map[] && cache == map[] && jumps.rings == map[]
      ensures !old(Full()) ==> tb == old(nbTbs) && live == old(live) && lists == old(lists) && cache == old(cache) &&
                               jumps.rings == old(jumps.rings)
      ensures Others(old(mem), mem, tb) && codePtr == if old(Full()) then codeBase else old(codePtr)
    {
      var r := Alloc(pc);
      if r == -1 {
        Flush();
        r := Alloc(pc);
      }
      tb := r;
    }

    /** The code of block tb is the last in the buffer, and the next block starts behind it, aligned. */
    ghost predicate LaidOut(tb: Ptr, codeSize: nat)
      reads this
    {
      && tb in mem && tb in ends && ends[tb] == mem[tb].tcPtr + codeSize
      && ends[tb] <= codePtr < ends[tb] + 16 && codePtr % 16 == 0
    }

    /** Translation of an allocated block: it gets its description and its place in the code buffer. */
    method Emit(tb: Ptr, b: Tb, codeSize: nat)
      requires Allocated(tb) && b.tcPtr == codePtr && codeSize > 0
      modifies this`mem, this`codePtr, this`ends
      ensures IndexesOk() && mem == old(mem)[tb := b] && LaidOut(tb, codeSize)
    {
      RewriteFree(mem, tb, b, heads, lists, on, live, bitmaps, cache, cpus, jmpHash);
      LayoutGrows(mem, ends, tb, codeBase, codePtr, b, codePtr + codeSize, AlignUp(codePtr + codeSize));
      ends := ends[tb := codePtr + codeSize];
      mem := mem[tb := b];
      codePtr := AlignUp(codePtr + codeSize);
    }

    /** tb_gen_code up to tb_link_page */
    method Translate(pc: nat, csBase: nat, flags: nat, size: nat, codeSize: nat) returns (tb: Ptr)
      requires Valid() && codeSize > 0
      modifies this, jumps
      ensures Valid() && tb !in live && tb < nbTbs && tb in mem && Others(old(mem), mem, tb)
      ensures mem[tb].pc == pc && mem[tb].csBase == csBase && mem[tb].flags == flags && mem[tb].size == size
      ensures old(Full()) ==> live == {} && lists == map[] && cache == map[] && jumps.rings == map[]
      ensures !old(Full()) ==>
        live == old(live) && lists == old(lists) && cache == old(cache) && jumps.rings == old(jumps.rings)
      ensures LaidOut(tb, codeSize) && mem[tb].tcPtr == if old(Full()) then codeBase else old(codePtr)
    {
      tb := AllocOrFlush(pc);
      Emit(tb, mem[tb].(tcPtr := codePtr, csBase := csBase, flags := flags, size := size), codeSize);
    }

    /**
      tb_gen_code.  `code` maps a virtual address to the physical address of its code; size and
      codeSize are what the code generator reports.
     */
    method GenCode(pc: nat, csBase: nat, flags: nat, code: nat -> nat, size: nat, codeSize: nat) returns (tb: Ptr)
      requires Valid() && Translatable(pc, code, size) && codeSize > 0
      modifies this, jumps
      ensures Valid() && tb in live && Describes(mem, tb, pc, csBase, flags, code, size) && Others(old(mem), mem, tb)
      ensures Added(old(Full()), old(Snapshot()), Snapshot(), tb)
      ensures if old(Full()) then cache == map[] else cache == old(cache)
      ensures LaidOut(tb, codeSize) && mem[tb].tcPtr == if old(Full()) then codeBase else old(codePtr)
    {
      tb := Translate(pc, csBase, flags, size, codeSize);
      ghost var v1 := Snapshot();
      GenShaped(mem[tb], code);
      LinkPage(tb, code(pc), SecondPhys(pc, size, code));
      GenAdded(old(Full()), old(Snapshot()), v1, Snapshot(), tb, code);
    }

    // ----- Lookup --------------------------------------------------------------

    /** The search of tb_find_slow along a chain: the first match and the link before it, if any. */
    method SearchChain(h: nat, pc: nat, csBase: nat, flags: nat, code: nat -> nat)
      returns (prev: Link, cur: Link, ghost i: nat)
      requires ListsOk() && Threaded(mem, on, live)
      ensures var s := ListOf(lists, Bucket(h));
        && i <= |s| && prev == (if i == 0 then Null else s[i - 1]) && cur == (if i < |s| then s[i] else Null)
        && (cur != Null ==> cur.tb in live && cur == To(cur.tb, 2) && Matches(mem[cur.tb], pc, csBase, flags, code))
        && (cur == Null ==> NoMatch(mem, s, pc, csBase, flags, code))
        && (prev != Null ==> prev.tb in live && prev == To(prev.tb, 2) && Val(mem, prev) == cur)
        && (prev == Null ==> i == 0)
    {
      ghost var s := ListOf(lists, Bucket(h));
      assert ListOk(mem, heads, lists, on, Bucket(h));
      prev := Null;
      cur := HeadOf(heads, Bucket(h));
      i := 0;
      while cur != Null
        invariant i <= |s| && cur == (if i < |s| then s[i] else Null) && List(mem, cur, s[i..])
        invariant prev == if i == 0 then Null else s[i - 1]
        invariant forall j :: 0 <= j < i ==>
          s[j].To? && s[j].tb in mem && !Matches(mem[s[j].tb], pc, csBase, flags, code)
        invariant i > 0 ==> IsField(mem, s[i - 1]) && Val(mem, s[i - 1]) == cur
        decreases |s| - i
      {
        assert s[i] in s;
        if Matches(mem[cur.tb], pc, csBase, flags, code) {
          break;
        }
        assert s[i + 1..] == s[i..][1..];
        prev := cur;
        cur := Val(mem, cur);
        i := i + 1;
      }
      assert i > 0 ==> s[i - 1] in s;
    }

    /** The relinking at the end of tb_find_slow. */
    method MoveToFront(id: ListId, prev: Link, cur: Link, ghost i: nat)
      requires ListsOk() && i < |ListOf(lists, id)| && cur == ListOf(lists, id)[i]
      requires prev == if i == 0 then Null else ListOf(lists, id)[i - 1]
      modifies this`mem, this`heads, this`lists, this`on
      ensures ListsOk() && Same(old(mem), mem) && heads.Keys >= old(heads).Keys && on == old(on)
      ensures lists == old(lists)[id := [cur] + Drop(ListOf(old(lists), id), cur)]
    {
      CutAt(id, prev, cur, i);
      Push(cur, id);
    }

    /** MoveToFront on a hash chain, which leaves all other indexes alone. */
    method MoveInChain(h: nat, prev: Link, cur: Link, ghost i: nat)
      requires IndexesOk() && i < |ListOf(lists, Bucket(h))| && cur == ListOf(lists, Bucket(h))[i]
      requires prev == if i == 0 then Null else ListOf(lists, Bucket(h))[i - 1]
      modifies this`mem, this`heads, this`lists, this`on
      ensures IndexesOk() && Same(old(mem), mem)
      ensures lists == old(lists)[Bucket(h) := [cur] + Drop(ListOf(old(lists), Bucket(h)), cur)]
    {
      MoveToFront(Bucket(h), prev, cur, i);
      SameThreaded(old(mem), mem, on, live);
      SameCache(old(mem), mem, live, live, cache, cpus, jmpHash);
      SameLayout(old(mem), mem, ends, nbTbs, codeBase, codePtr);
      BitmapsSame(old(mem), mem, old(heads), old(lists), on, lists, bitmaps, bitmaps);
    }

    /** tb_find_slow when a match is on the chain. */
    method Found(h: nat, prev: Link, cur: Link, ghost i: nat)
      requires Valid() && i < |ListOf(lists, Bucket(h))| && cur == ListOf(lists, Bucket(h))[i] && cur.To? && cur.n == 2
      requires prev == if i == 0 then Null else ListOf(lists, Bucket(h))[i - 1]
      modifies this`mem, this`heads, this`lists, this`on
      ensures Valid() && Reused(old(Snapshot()), Snapshot(), cur.tb)
    {
      ChainOf(mem, heads, lists, on, h, cur);
      MoveInChain(h, prev, cur, i);
    }

    /** `*ptb1` is still NULL, or the new block is the only one on the chain. */
    ghost predicate EndOfSearch(h: nat, prev: Link, tb: Ptr)
      reads this
    {
      && (prev != Null ==> prev.tb in mem && prev == To(prev.tb, 2) && Val(mem, prev) == Null)
      && (prev == Null ==> ListOf(lists, Bucket(h)) == [To(tb, 2)] && Bucket(h) in lists)
    }

    /** The translation of tb_find_slow when the search has ended at the link after prev. */
    method GenMissing(h: nat, prev: Link, pc: nat, csBase: nat, flags: nat, code: nat -> nat, size: nat, codeSize: nat)
      returns (tb: Ptr)
      requires Valid() && Translatable(pc, code, size) && codeSize > 0 && h == PhysHash(code(pc))
      requires prev == Null ==> ListOf(lists, Bucket(h)) == []
      requires prev != Null ==> prev.tb in live && prev == To(prev.tb, 2) && prev.tb in mem && Val(mem, prev) == Null
      modifies this, jumps
      ensures Valid() && tb in live && EndOfSearch(h, prev, tb)
      ensures Describes(mem, tb, pc, csBase, flags, code, size) && Added(old(Full()), old(Snapshot()), Snapshot(), tb)
      ensures if old(Full()) then cache == map[] else cache == old(cache)
    {
      tb := GenCode(pc, csBase, flags, code, size, codeSize);
      SearchEnd(old(Full()), old(Snapshot()), Snapshot(), heads, on, tb, h, prev, code);
    }

    /**
      tb_find_slow when there is no match: the new block goes to the front of the chain, and
      the link that ended the search is looked at again.
     */
    method NotFound(h: nat, prev: Link, pc: nat, csBase: nat, flags: nat, code: nat -> nat, size: nat, codeSize: nat)
      returns (tb: Ptr)
      requires Valid() && Translatable(pc, code, size) && codeSize > 0 && h == PhysHash(code(pc))
      requires prev == Null ==> ListOf(lists, Bucket(h)) == []
      requires prev != Null ==> prev.tb in live && prev == To(prev.tb, 2) && prev.tb in mem && Val(mem, prev) == Null
      modifies this, jumps
      ensures Valid() && tb in live && tb in mem && Matches(mem[tb], pc, csBase, flags, code)
      ensures Added(old(Full()), old(Snapshot()), Snapshot(), tb)
      ensures if old(Full()) then cache == map[] else cache == old(cache)
    {
      tb := GenMissing(h, prev, pc, csBase, flags, code, size, codeSize);
      RecheckNew(h, prev, tb, pc, csBase, flags, code, size, old(Full()), old(Snapshot()));
    }

    method RecheckNew(h: nat, prev: Link, tb: Ptr, ghost pc: nat, ghost csBase: nat, ghost flags: nat,
                      ghost code: nat -> nat, ghost size: nat, ghost full: bool, ghost v0: View)
      requires Valid() && EndOfSearch(h, prev, tb) && Describes(mem, tb, pc, csBase, flags, code, size)
      requires Added(full, v0, Snapshot(), tb)
      modifies this`mem, this`heads, this`lists, this`on
      ensures Valid() && Added(full, v0, Snapshot(), tb) && cache == old(cache)
      ensures tb in mem && Matches(mem[tb], pc, csBase, flags, code)
    {
      ghost var v1 := Snapshot();
      Recheck(h, prev, tb);
      StillAdded(full, v0, v1, mem, tb, pc, csBase, flags, code, size);
    }

    /** After the new block is linked, `*ptb1` is either still NULL or the new block itself. */
    method Recheck(h: nat, prev: Link, tb: Ptr)
      requires IndexesOk() && EndOfSearch(h, prev, tb)
      modifies this`mem, this`heads, this`lists, this`on
      ensures IndexesOk() && Same(old(mem), mem) && lists == old(lists)
    {
      var there := if prev == Null then HeadOf(heads, Bucket(h)) else Val(mem, prev);
      if there != Null {
        MoveInChain(h, prev, To(tb, 2), 0);
        assert [To(tb, 2)] + Drop([To(tb, 2)], To(tb, 2)) == [To(tb, 2)];
      }
    }

    /** A linked block translates the code that is now at pc. */
    ghost predicate Present(pc: nat, csBase: nat, flags: nat, code: nat -> nat)
      reads this
    {
      exists t :: t in live && t in mem && Translates(mem[t], pc, csBase, flags, code)
    }

    /** The jump cache may hold any linked block in the slot of its pc. */
    method Remember(cpu: nat, tb: Ptr)
      requires Valid() && tb in live && cpu < cpus
      modifies this`cache
      ensures Valid() && tb in mem && cache == old(cache)[(cpu, jmpHash(mem[tb].pc)) := tb]
    {
      cache := cache[(cpu, jmpHash(mem[tb].pc)) := tb];
    }

    /** The search succeeds iff some linked block matches. */
    method Search(pc: nat, csBase: nat, flags: nat, code: nat -> nat) returns (prev: Link, cur: Link, ghost i: nat)
      requires ListsOk() && Threaded(mem, on, live) && code(pc) % PAGE == pc % PAGE
      ensures cur != Null <==> Present(pc, csBase, flags, code)
      ensures cur != Null ==>
        cur.To? && cur.n == 2 && cur.tb in live && cur.tb in mem && Matches(mem[cur.tb], pc, csBase, flags, code) &&
        Translates(mem[cur.tb], pc, csBase, flags, code)
      ensures prev != Null ==> prev.tb in live && prev == To(prev.tb, 2) && prev.tb in mem && Val(mem, prev) == cur
      ensures var s := ListOf(lists, Bucket(PhysHash(code(pc))));
        && i <= |s| && prev == (if i == 0 then Null else s[i - 1]) && cur == (if i < |s| then s[i] else Null)
        && (prev == Null && cur == Null ==> s == [])
    {
      prev, cur, i := SearchChain(PhysHash(code(pc)), pc, csBase, flags, code);
      PresentIffOnChain(pc, csBase, flags, code, cur);
    }

    /** tb_find_slow but for the jump cache */
    method FindOrGen(pc: nat, csBase: nat, flags: nat, code: nat -> nat, size: nat, codeSize: nat) returns (tb: Ptr)
      requires Valid() && Translatable(pc, code, size) && codeSize > 0
      modifies this, jumps
      ensures Valid() && tb in live && tb in mem && Matches(mem[tb], pc, csBase, flags, code)
      ensures old(Present(pc, csBase, flags, code)) ==> Reused(old(Snapshot()), Snapshot(), tb)
      ensures !old(Present(pc, csBase, flags, code)) ==> Added(old(Full()), old(Snapshot()), Snapshot(), tb)
      ensures cache == if old(!Present(pc, csBase, flags, code) && Full()) then map[] else old(cache)
    {
      var prev, cur;
      ghost var i;
      prev, cur, i := Search(pc, csBase, flags, code);
      if cur != Null {
        tb := cur.tb;
        Found(PhysHash(code(pc)), prev, cur, i);
      } else {
        tb := NotFound(PhysHash(code(pc)), prev, pc, csBase, flags, code, size, codeSize);
      }
    }

    /**
      tb_find_slow: finds a linked translation of the code that is now at pc if there is one, and
      then only moves it to the front of its chain; otherwise links one new block.  Every code
      byte of the block is where the address map puts it.
     */
    method FindSlow(cpu: nat, pc: nat, csBase: nat, flags: nat, code: nat -> nat, size: nat, codeSize: nat)
      returns (tb: Ptr)
      requires Valid() && Translatable(pc, code, size) && codeSize > 0 && cpu < cpus
      modifies this, jumps
      ensures Valid() && tb in live && tb in mem
      ensures mem[tb].pc == pc && mem[tb].csBase == csBase && mem[tb].flags == flags
      ensures forall k: nat :: k < mem[tb].size ==>
        ByteAt(mem[tb], k) == if pc % PAGE + k < PAGE then code(pc) + k
                              else code(pc / PAGE * PAGE + PAGE) + (pc % PAGE + k - PAGE)
      ensures First(lists, To(tb, 2), code(pc))
      ensures cache == (if old(!Present(pc, csBase, flags, code) && Full()) then map[]
        else old(cache))[(cpu, jmpHash(pc)) := tb]
      ensures old(Present(pc, csBase, flags, code)) ==> Reused(old(Snapshot()), Snapshot(), tb)
      ensures !old(Present(pc, csBase, flags, code)) ==> Added(old(Full()), old(Snapshot()), Snapshot(), tb)
    {
      tb := FindRight(pc, csBase, flags, code, size, codeSize);
      Remember(cpu, tb);
    }

    method FindRight(pc: nat, csBase: nat, flags: nat, code: nat -> nat, size: nat, codeSize: nat) returns (tb: Ptr)
      requires Valid() && Translatable(pc, code, size) && codeSize > 0
      modifies this, jumps
      ensures Valid() && tb in live && tb in mem && Translates(mem[tb], pc, csBase, flags, code)
      ensures First(lists, To(tb, 2), code(pc))
      ensures old(Present(pc, csBase, flags, code)) ==> Reused(old(Snapshot()), Snapshot(), tb)
      ensures !old(Present(pc, csBase, flags, code)) ==> Added(old(Full()), old(Snapshot()), Snapshot(), tb)
      ensures cache == if old(!Present(pc, csBase, flags, code) && Full()) then map[] else old(cache)
    {
      tb := FindOrGen(pc, csBase, flags, code, size, codeSize);
      FoundIsRight(old(Full()), old(Snapshot()), tb, pc, csBase, flags, code);
    }

    lemma FoundIsRight(full: bool, v0: View, tb: Ptr, pc: nat, csBase: nat, flags: nat, code: nat -> nat)
      requires Threaded(mem, on, live) && tb in live && code(pc) % PAGE == pc % PAGE
      requires Matches(mem[tb], pc, csBase, flags, code)
      requires Reused(v0, Snapshot(), tb) || Added(full, v0, Snapshot(), tb)
      ensures Translates(mem[tb], pc, csBase, flags, code) && First(lists, To(tb, 2), code(pc))
    {
      MatchesIff(mem[tb], pc, csBase, flags, code);
      FirstIsBlock(full, v0, Snapshot(), tb, code);
    }

    lemma PresentIffOnChain(pc: nat, csBase: nat, flags: nat, code: nat -> nat, cur: Link)
      requires ListsOk() && Threaded(mem, on, live) && code(pc) % PAGE == pc % PAGE
      requires cur != Null ==> cur.tb in live && cur.tb in mem && Matches(mem[cur.tb], pc, csBase, flags, code)
      requires cur == Null ==> NoMatch(mem, ListOf(lists, Bucket(PhysHash(code(pc)))), pc, csBase, flags, code)
      ensures Present(pc, csBase, flags, code) <==> cur != Null
      ensures cur != Null ==> Translates(mem[cur.tb], pc, csBase, flags, code)
    {
      if cur != Null {
        MatchesIff(mem[cur.tb], pc, csBase, flags, code);
      }
      if t :| t in live && t in mem && Translates(mem[t], pc, csBase, flags, code) {
        MatchesIff(mem[t], pc, csBase, flags, code);
        MatchIsOnChain(mem, heads, lists, on, live, t, pc, csBase, flags, code);
      }
    }

    /** The jump-cache slot of pc holds a block for this pc, cs base and flags. */
    predicate Hit(cpu: nat, pc: nat, csBase: nat, flags: nat)
      reads this
    {
      (cpu, jmpHash(pc)) in cache &&
        var t := cache[(cpu, jmpHash(pc))];
        t in mem && mem[t].pc == pc && mem[t].csBase == csBase && mem[t].flags == flags
    }

    /** tb_find_fast: a hit changes nothing, a miss is a tb_find_slow. */
    method FindFast(cpu: nat, pc: nat, csBase: nat, flags: nat, code: nat -> nat, size: nat, codeSize: nat)
      returns (tb: Ptr)
      requires Valid() && Translatable(pc, code, size) && codeSize > 0 && cpu < cpus
      modifies this, jumps
      ensures Valid() && tb in live && Hit(cpu, pc, csBase, flags) && cache[(cpu, jmpHash(pc))] == tb
      ensures !old(Hit(cpu, pc, csBase, flags)) ==> Translates(mem[tb], pc, csBase, flags, code)
      ensures old(Hit(cpu, pc, csBase, flags)) ==> Snapshot() == old(Snapshot()) && cache == old(cache)
      ensures !old(Hit(cpu, pc, csBase, flags)) && old(Present(pc, csBase, flags, code)) ==>
        Reused(old(Snapshot()), Snapshot(), tb)
      ensures !old(Hit(cpu, pc, csBase, flags)) && !old(Present(pc, csBase, flags, code)) ==>
        Added(old(Full()), old(Snapshot()), Snapshot(), tb)
    {
      var slot := (cpu, jmpHash(pc));
      if slot in cache && mem[cache[slot]].pc == pc && mem[cache[slot]].csBase == csBase &&
        mem[cache[slot]].flags == flags {
        tb := cache[slot];
      } else {
        tb := FindSlow(cpu, pc, csBase, flags, code, size, codeSize);
      }
    }

    /** tb_find_pc: the block whose generated code holds address p; -1 if there is none. */
    method FindPc(p: nat) returns (tb: int)
      requires IndexesOk()
      ensures tb == -1 <==> !(codeBase <= p < codePtr)
      ensures tb != -1 ==> 0 <= tb < nbTbs && tb in mem && mem[tb].tcPtr <= p
      ensures tb != -1 && tb + 1 < nbTbs ==> tb + 1 in mem && p < mem[tb + 1].tcPtr
      ensures forall i :: 0 <= i < nbTbs && i in mem && i in ends && mem[i].tcPtr <= p < ends[i] ==> tb == i
    {
      if nbTbs == 0 || p < codeBase || p >= codePtr {
        NoCodeAt(mem, ends, nbTbs, codeBase, codePtr, p);
        return -1;
      }
      Ascending(mem, ends, nbTbs, codeBase, codePtr);
      var lo, hi := 0, nbTbs - 1;
      while lo <= hi
        invariant 0 <= lo <= hi + 1 <= nbTbs
        invariant lo > 0 ==> mem[lo - 1].tcPtr < p
        invariant hi + 1 < nbTbs ==> p < mem[hi + 1].tcPtr
      {
        var m := (lo + hi) / 2;
        var v := mem[m].tcPtr;
        if v == p {
          OnlyCodeAt(mem, ends, nbTbs, codeBase, codePtr, m, p);
          return m;
        } else if p < v {
          hi := m - 1;
        } else {
          lo := m + 1;
        }
      }
      OnlyCodeAt(mem, ends, nbTbs, codeBase, codePtr, hi, p);
      return hi;
    }

    /** tb_add_jump between two linked blocks */
    method ChainJump(tb: Ptr, n: nat, tbNext: Ptr)
      requires Valid() && tb in live && tbNext in live && n <= 1
      modifies jumps
      ensures Valid() && jumps.rings == if J.InRing(old(jumps.rings), J.To(tb, n)) then old(jumps.rings)
                       else old(jumps.rings)[tbNext := [J.To(tbNext, 2), J.To(tb, n)] + old(jumps.rings)[tbNext][1..]]
    {
      jumps.AddJump(tb, n, tbNext);
    }

    // ----- Self-modifying code -------------------------------------------------

    /** build_page_bitmap: the bitmap is exact. */
    method BuildBitmap(p: nat) returns (bits: seq<B.byte>)
      requires ListsOk() && Threaded(mem, on, live)
      ensures Exact(mem, ListOf(lists, Page(p)), bits)
    {
      var tab := new B.byte[BITMAP_SIZE](_ => 0);
      ghost var s := ListOf(lists, Page(p));
      assert ListOk(mem, heads, lists, on, Page(p));
      var l := HeadOf(heads, Page(p));
      ghost var i := 0;
      EmptyBitmap(mem, tab[..]);
      while l != Null
        invariant i <= |s| && l == (if i < |s| then s[i] else Null) && List(mem, l, s[i..])
        invariant Exact(mem, s[..i], tab[..]) && tab.Length == BITMAP_SIZE
        invariant fresh(tab)
        decreases |s| - i
      {
        assert s[i] in s;
        var b := mem[l.tb];
        var tbStart, tbEnd := ExtentOnPage(b, l.n);
        ghost var was := tab[..];
        B.SetBits(tab, tbStart, tbEnd - tbStart);
        BitmapStep(mem, s, i, was, tab[..], tbStart, tbEnd);
        assert s[i + 1..] == s[i..][1..];
        l := Val(mem, l);
        i := i + 1;
      }
      assert s[..i] == s;
      bits := tab[..];
    }

    /** Which bytes of the page an entry marks. */
    method ExtentOnPage(b: Tb, n: nat) returns (tbStart: nat, tbEnd: nat)
      requires Shaped(b) && n <= 1 && (n == 1 ==> TwoPages(b))
      ensures tbStart == ExtentStart(b, n) && tbEnd == MinInt(ExtentEnd(b, n), PAGE) && tbStart <= tbEnd
    {
      if n == 0 {
        tbStart := b.pc % PAGE;
        tbEnd := tbStart + b.size;
        if tbEnd > PAGE {
          tbEnd := PAGE;
        }
      } else {
        tbStart := 0;
        tbEnd := (b.pc + b.size) % PAGE;
      }
    }

    /** One round of the loop of tb_invalidate_phys_page_range; false where the original fails. */
    method VisitEntry(p: nat, l: Link, start: nat, end: nat, ghost pre: seq<Link>, ghost rest: seq<Link>)
      returns (ok: bool, next: Link, ghost pre': seq<Link>)
      requires Valid() && OnWalk(mem, lists, live, p, l, pre, rest)
      modifies this, jumps
      ensures ok <==> !(Overlaps(old(mem)[l.tb], l.n, start, end) && l.tb !in old(live))
      ensures ok ==> Valid() && Same(old(mem), mem) && heads.Keys >= old(heads).Keys && next == Next(rest)
      ensures ok && rest != [] ==> OnWalk(mem, lists, live, p, rest[0], pre', rest[1..])
      ensures ok ==> live == if Overlaps(old(mem)[l.tb], l.n, start, end) then old(live) - {l.tb} else old(live)
      ensures ok ==> Intact(old(jumps.rings), old(cache), jumps.rings, cache)
    {
      IntactSame(mem, jumps.rings, cache, cpus, jmpHash);
      pre' := WalkOn(mem, heads, lists, on, live, p, l, pre, rest);
      next := Val(mem, l);
      ok := true;
      if Overlaps(mem[l.tb], l.n, start, end) {
        ok := PhysInvalidate(l.tb);
        if ok {
          pre' := DropTb(pre, l.tb);
          WalkDropped(old(mem), old(heads), old(lists), old(on), old(live), p, l, pre, rest, mem, lists);
        }
      }
    }

    /** The state of the loop: the entries s[..i] have been visited, those in pre are still linked. */
    ghost predicate Visiting(p: nat, start: nat, end: nat, m0: Memory, live0: set<Ptr>, s: seq<Link>, i: nat,
                             pre: seq<Link>)
      reads this
    {
      && i <= |s| && Same(m0, mem) && Scanned(m0, s[..i], live0, live, start, end)
      && (i < |s| ==> OnWalk(mem, lists, live, p, s[i], pre, s[i + 1..]))
    }

    method VisitNext(p: nat, l: Link, start: nat, end: nat, ghost m0: Memory, ghost live0: set<Ptr>,
                     ghost s: seq<Link>, ghost i: nat, ghost pre: seq<Link>,
                     ghost r0: J.Rings, ghost c0: Cache)
      returns (ok: bool, next: Link, ghost pre': seq<Link>)
      requires Valid() && Visiting(p, start, end, m0, live0, s, i, pre) && i < |s| && l == s[i]
      requires Intact(r0, c0, jumps.rings, cache)
      modifies this, jumps
      ensures l.tb in m0 && (ok <==> !(Overlaps(m0[l.tb], l.n, start, end) && l.tb !in old(live)))
      ensures ok ==> Valid() && Visiting(p, start, end, m0, live0, s, i + 1, pre') && heads.Keys >= old(heads).Keys
      ensures ok ==> next == (if i + 1 < |s| then s[i + 1] else Null) && Intact(r0, c0, jumps.rings, cache)
    {
      ghost var m1, was, r1, c1 := mem, live, jumps.rings, cache;
      assert i + 1 < |s| ==> s[i + 1..][0] == s[i + 1] && s[i + 1..][1..] == s[i + 2..];
      SameEntry(m0, m1, l, start, end);
      ok, next, pre' := VisitEntry(p, l, start, end, pre, s[i + 1..]);
      if ok {
        IntactTrans(r0, c0, r1, c1, jumps.rings, cache);
        SameTrans(m0, m1, mem);
        ScanStep(m0, s, i, live0, was, live, start, end);
      }
    }

    /** The loop of tb_invalidate_phys_page_range; it fails iff a block has both of its entries hit. */
    method VisitEntries(p: nat, start: nat, end: nat) returns (ok: bool)
      requires Valid()
      modifies this, jumps
      ensures ok <==> NoneHitTwice(old(mem), ListOf(old(lists), Page(p)), start, end)
      ensures ok ==> Valid() && Same(old(mem), mem) && heads.Keys >= old(heads).Keys
      ensures ok ==> Scanned(old(mem), ListOf(old(lists), Page(p)), old(live), live, start, end)
      ensures ok ==> Intact(old(jumps.rings), old(cache), jumps.rings, cache)
    {
      ghost var s, m0, live0, r0, c0 := ListOf(lists, Page(p)), mem, live, jumps.rings, cache;
      IntactSame(mem, jumps.rings, cache, cpus, jmpHash);
      ListShape(mem, heads, lists, on, p);
      var l := HeadOf(heads, Page(p));
      ghost var i, pre := 0, [];
      assert s != [] ==> [] + [s[0]] + s[1..] == s && s[0] in s;
      ScanStart(mem, s, live, on, start, end);
      while l != Null
        invariant Valid() && heads.Keys >= old(heads).Keys && Visiting(p, start, end, m0, live0, s, i, pre)
        invariant l == (if i < |s| then s[i] else Null) && Intact(r0, c0, jumps.rings, cache)
        invariant NoneHitTwice(m0, s[..i], start, end)
        decreases |s| - i
      {
        SecondHit(m0, old(heads), old(lists), old(on), live0, live, p, i, start, end);
        ok, l, pre := VisitNext(p, l, start, end, m0, live0, s, i, pre, r0, c0);
        OneMoreEntry(m0, s, i, start, end);
        if !ok {
          return;
        }
        i := i + 1;
      }
      assert s[..i] == s;
      ok := true;
    }

    /** Writes to a page without a bitmap are counted; from the tenth on a cpu write has the bitmap built. */
    method MaybeBuildBitmap(p: nat, isCpuWrite: bool)
      requires Valid() && Page(p) in heads
      modifies this`bitmaps, this`writes
      ensures Valid()
      ensures p in old(bitmaps) ==> bitmaps == old(bitmaps) && writes == old(writes)
      ensures p !in old(bitmaps) ==>
        var count := (if p in old(writes) then old(writes)[p] else 0) + 1;
        && writes == old(writes)[p := count]
        && bitmaps.Keys == old(bitmaps).Keys + (if isCpuWrite && count >= 10 then {p} else {})
    {
      if p !in bitmaps {
        var count := (if p in writes then writes[p] else 0) + 1;
        writes := writes[p := count];
        if count >= SMC_BITMAP_USE_THRESHOLD && isCpuWrite {
          var bits := BuildBitmap(p);
          bitmaps := bitmaps[p := bits];
        }
      }
    }

    method VisitPage(start: nat, end: nat) returns (ok: bool)
      requires Valid() && start < end && Page(start / PAGE) in heads
      modifies this, jumps
      ensures ok <==> NoneTwice(old(mem), old(live), start, MinInt(end, PageEnd(start)))
      ensures ok ==> Valid() && Same(old(mem), mem)
      ensures ok ==> Spared(old(mem), old(live), live, start, MinInt(end, PageEnd(start)))
      ensures ok ==> Intact(old(jumps.rings), old(cache), jumps.rings, cache)
    {
      TwiceIsHit(mem, heads, lists, on, live, start, end);
      ok := VisitEntries(start / PAGE, start, end);
      if ok {
        ScannedIsSpared(old(mem), old(heads), old(lists), old(on), old(live), live, start, end);
        DropEmptyBitmap(start / PAGE);
      }
    }

    /** A page without code needs no bitmap. */
    method DropEmptyBitmap(p: nat)
      requires Valid() && Page(p) in heads
      modifies this`bitmaps, this`writes
      ensures Valid() && bitmaps == if ListOf(lists, Page(p)) == [] then old(bitmaps) - {p} else old(bitmaps)
    {
      ListShape(mem, heads, lists, on, p);
      if heads[Page(p)] == Null {
        InvalidateBitmap(p);
      }
    }

    /**
      tb_invalidate_phys_page_range: exactly the blocks with a code byte in the range, as far as
      it lies on the page of `start`, are gone.  It fails iff a block whose two pages are the
      same has code bytes of both in the range.
     */
    method InvalidatePageRange(start: nat, end: nat, isCpuWrite: bool) returns (ok: bool)
      requires Valid() && start < end
      modifies this, jumps
      ensures ok <==> NoneTwice(old(mem), old(live), start, MinInt(end, PageEnd(start)))
      ensures ok ==> Valid() && Same(old(mem), mem)
      ensures ok ==> Spared(old(mem), old(live), live, start, MinInt(end, PageEnd(start)))
      ensures ok ==> Intact(old(jumps.rings), old(cache), jumps.rings, cache)
    {
      var p := start / PAGE;
      if Page(p) !in heads {
        IntactSame(mem, jumps.rings, cache, cpus, jmpHash);
        NothingListed(mem, heads, lists, on, live, start, end);
        return true;
      }
      ok := InvalidateListed(start, end, isCpuWrite);
    }

    /** The same for a page that has a descriptor. */
    method InvalidateListed(start: nat, end: nat, isCpuWrite: bool) returns (ok: bool)
      requires Valid() && start < end && Page(start / PAGE) in heads
      modifies this, jumps
      ensures ok <==> NoneTwice(old(mem), old(live), start, MinInt(end, PageEnd(start)))
      ensures ok ==> Valid() && Same(old(mem), mem)
      ensures ok ==> Spared(old(mem), old(live), live, start, MinInt(end, PageEnd(start)))
      ensures ok ==> Intact(old(jumps.rings), old(cache), jumps.rings, cache)
    {
      MaybeBuildBitmap(start / PAGE, isCpuWrite);
      ok := VisitPage(start, end);
    }

    /** Everything in [from, start) has been dealt with. */
    ghost predicate Done(from: nat, start: int, m0: Memory, live0: set<Ptr>, r0: J.Rings, c0: Cache)
      reads this, jumps
    {
      && Same(m0, mem) && AllShaped(m0, live0)
      && Spared(m0, live0, live, from, start) && NoneTwice(m0, live0, from, start)
      && Intact(r0, c0, jumps.rings, cache)
    }

    lemma NothingDone(from: nat)
      requires Valid()
      ensures Done(from, from, mem, live, jumps.rings, cache)
    {
      IntactSame(mem, jumps.rings, cache, cpus, jmpHash);
      NothingTouched(mem, on, live, from);
    }

    /** One round of tb_invalidate_phys_range: the page of start is dealt with, and next is the page after it. */
    method InvalidateNextPage(start: nat, end: nat, isCpuWrite: bool, ghost from: nat, ghost m0: Memory,
                              ghost live0: set<Ptr>, ghost r0: J.Rings, ghost c0: Cache)
      returns (ok: bool, next: nat)
      requires Valid() && from <= start < end && Done(from, start, m0, live0, r0, c0)
      requires start == from || start % PAGE == 0
      modifies this, jumps
      ensures start < next && next % PAGE == 0
      ensures ok <==> NoneTwice(m0, live0, from, MinInt(next, end))
      ensures ok ==> Valid() && Done(from, MinInt(next, end), m0, live0, r0, c0)
    {
      ghost var m1, live1, r1, c1 := mem, live, jumps.rings, cache;
      ok := InvalidatePageRange(start, end, isCpuWrite);
      next := PageEnd(start);
      assert MinInt(end, PageEnd(start)) == MinInt(next, end);
      NoneTwiceMore(m0, m1, live0, live1, from, start, MinInt(next, end));
      if ok {
        IntactTrans(r0, c0, r1, c1, jumps.rings, cache);
        SameTrans(m0, m1, mem);
        SparedMore(m0, m1, live0, live1, live, from, start, MinInt(next, end));
      }
    }

    /** The loop of tb_invalidate_phys_range. */
    method InvalidatePages(from: nat, end: nat, isCpuWrite: bool, ghost m0: Memory, ghost live0: set<Ptr>,
                           ghost r0: J.Rings, ghost c0: Cache)
      returns (ok: bool)
      requires Valid() && from <= end && Done(from, from, m0, live0, r0, c0)
      modifies this, jumps
      ensures ok <==> NoneTwice(m0, live0, from, end)
      ensures ok ==> Valid() && Done(from, end, m0, live0, r0, c0)
    {
      var start := from;
      while start < end
        invariant Valid() && from <= start && Done(from, MinInt(start, end), m0, live0, r0, c0)
        invariant start == from || start % PAGE == 0
        decreases end - start
      {
        ok, start := InvalidateNextPage(start, end, isCpuWrite, from, m0, live0, r0, c0);
        if !ok {
          NoneTwiceLess(m0, live0, from, MinInt(start, end), end);
          return;
        }
      }
      ok := true;
    }

    /** tb_invalidate_phys_range: the same for a range over any number of pages. */
    method InvalidatePhysRange(from: nat, end: nat, isCpuWrite: bool) returns (ok: bool)
      requires Valid() && from <= end
      modifies this, jumps
      ensures ok <==> NoneTwice(old(mem), old(live), from, end)
      ensures ok ==> Valid() && Same(old(mem), mem)
      ensures ok ==>
        Spared(old(mem), old(live), live, from, end) && Intact(old(jumps.rings), old(cache), jumps.rings, cache)
    {
      NothingDone(from);
      ok := InvalidatePages(from, end, isCpuWrite, mem, live, jumps.rings, cache);
    }

    /** The bitmap of the page, if there is one, says that no code lies in the range. */
    predicate KnownClear(start: nat, len: nat)
      reads this
      requires B.AccessSize(len)
    {
      var p, offset := start / PAGE, start % PAGE;
      p in bitmaps && |bitmaps[p]| == BITMAP_SIZE && !B.AnyBit(bitmaps[p][offset / 8], offset % 8, len)
    }

    lemma NothingThere(start: nat, len: nat)
      requires Valid() && B.AccessSize(len) && start % len == 0
      requires Page(start / PAGE) !in heads || KnownClear(start, len)
      ensures NoneTwice(mem, live, start, start + len) && Spared(mem, live, live, start, start + len)
    {
      WithinPage(start, len);
      if KnownClear(start, len) {
        ClearBits(mem, heads, lists, on, live, bitmaps[start / PAGE], start, len);
        SparedIsOnce(mem, on, live, start, start + len);
      } else {
        NothingListed(mem, heads, lists, on, live, start, start + len);
      }
    }

    /** tb_invalidate_phys_page_fast does what tb_invalidate_phys_page_range does. */
    method InvalidateFast(start: nat, len: nat) returns (ok: bool)
      requires Valid() && B.AccessSize(len) && start % len == 0
      modifies this, jumps
      ensures ok <==> NoneTwice(old(mem), old(live), start, start + len)
      ensures ok ==> Valid() && Same(old(mem), mem) && Spared(old(mem), old(live), live, start, start + len)
      ensures ok ==> Intact(old(jumps.rings), old(cache), jumps.rings, cache)
    {
      if Page(start / PAGE) !in heads || KnownClear(start, len) {
        IntactSame(mem, jumps.rings, cache, cpus, jmpHash);
        NothingThere(start, len);
        return true;
      }
      WithinPage(start, len);
      ok := InvalidatePageRange(start, start + len, true);
    }
  }

  /**
    Code that runs from the end of a physical page into the start of the same page, as when two
    adjacent virtual pages are mapped to it, makes a write to the whole page fail.
   */
  method WrappedBlockFails() returns (ok: bool)
    ensures !ok
  {
    var c, tb := WrappedBlock();
    ok := c.InvalidatePhysRange(0, PAGE, false);
  }

  method WrappedBlock() returns (c: TbCache, tb: Ptr)
    ensures c.Valid() && tb in c.live && tb in c.mem && Twice(c.mem[tb], 0, PAGE) && fresh(c) && fresh(c.jumps)
  {
    c := new TbCache(pc => pc, 1, 1, 1, 0);
    var code := x => x % PAGE;
    tb := c.GenCode(PAGE - 1, 0, 0, code, 2, 1);
    WrappedTwice(c.mem, tb, code);
  }

  lemma WrappedTwice(m: Memory, tb: Ptr, code: nat -> nat)
    requires Describes(m, tb, PAGE - 1, 0, 0, code, 2) && forall x: nat :: code(x) == x % PAGE
    ensures Twice(m[tb], 0, PAGE)
  {
  }

  /**
    A block is linked iff it is on the hash chain of its physical pc, iff it is on the list of
    its first page, and iff it is on that of its second page if it has one; it is on no other list.
   */
  lemma LinkedIffListed(m: Memory, heads: Heads, lists: Lists, on: set<Link>, live: set<Ptr>, t: Ptr)
    requires Indexed(m, heads, lists, on) && Threaded(m, on, live) && t in m
    ensures t in live <==> To(t, 2) in ListOf(lists, Bucket(PhysHash(PhysPc(m[t]))))
    ensures t in live <==> To(t, 0) in ListOf(lists, Page(m[t].page0 / PAGE))
    ensures TwoPages(m[t]) ==> (t in live <==> To(t, 1) in ListOf(lists, Page(m[t].page1 / PAGE)))
    ensures forall id, n: nat :: To(t, n) in ListOf(lists, id) ==>
      t in live && IsField(m, To(t, n)) && Home(m, To(t, n)) == id
    ensures forall id :: NoDup(ListOf(lists, id))
  {
    forall id ensures ListOk(m, heads, lists, on, id) {
    }
    assert IsField(m, To(t, 2)) && IsField(m, To(t, 0)) && (TwoPages(m[t]) ==> IsField(m, To(t, 1)));
    assert ListOk(m, heads, lists, on, Home(m, To(t, 2))) && ListOk(m, heads, lists, on, Home(m, To(t, 0)));
    assert TwoPages(m[t]) ==> ListOk(m, heads, lists, on, Home(m, To(t, 1)));
    forall id, n: nat | To(t, n) in ListOf(lists, id)
      ensures t in live && IsField(m, To(t, n)) && Home(m, To(t, n)) == id
    {
      assert ListOk(m, heads, lists, on, id);
    }
    forall id ensures NoDup(ListOf(lists, id)) {
      assert ListOk(m, heads, lists, on, id);
    }
  }

  /** The chain with one entry moved to its front. */
  function MovedUp(lists: Lists, id: ListId, l: Link): Lists { lists[id := [l] + Drop(ListOf(lists, id), l)] }

  datatype View = View(mem: Memory, live: set<Ptr>, lists: Lists, rings: J.Rings)

  /** A lookup that found tb: it moved to the front of its chain, and nothing else happened. */
  ghost predicate Reused(a: View, b: View, tb: Ptr) {
    && tb in b.mem && b.live == a.live && Same(a.mem, b.mem) && b.rings == a.rings
    && b.lists == MovedUp(a.lists, Home(b.mem, To(tb, 2)), To(tb, 2))
  }

  /** A lookup that linked tb as a new block, possibly after a flush. */
  ghost predicate Added(full: bool, a: View, b: View, tb: Ptr) {
    && tb in b.mem && b.lists == PushFields(b.mem, if full then map[] else a.lists, tb)
    && (if full then b.live == {tb} else tb !in a.live && b.live == a.live + {tb})
    && b.rings == (if full then map[] else a.rings)[tb := [J.To(tb, 2)]]
    && (forall t :: t in a.mem && t != tb ==> t in b.mem && Fixed(b.mem[t], a.mem[t]))
  }

  lemma ChainOf(m: Memory, heads: Heads, lists: Lists, on: set<Link>, h: nat, l: Link)
    requires Indexed(m, heads, lists, on) && l in ListOf(lists, Bucket(h))
    ensures IsField(m, l) && Home(m, l) == Bucket(h)
  {
    assert ListOk(m, heads, lists, on, Bucket(h));
  }

  /** Moving an entry to the front only permutes the chain. */
  lemma MovedUpPermutes(lists: Lists, id: ListId, l: Link)
    requires l in ListOf(lists, id)
    ensures multiset(ListOf(MovedUp(lists, id, l), id)) == multiset(ListOf(lists, id))
    ensures forall k :: k != id ==> ListOf(MovedUp(lists, id, l), k) == ListOf(lists, k)
  {
    DropMultiset(ListOf(lists, id), l);
  }

  lemma {:induction false} DropMultiset(s: seq<Link>, l: Link)
    requires l in s
    ensures multiset([l] + Drop(s, l)) == multiset(s)
  {
    assert s == [s[0]] + s[1..];
    if s[0] != l {
      DropMultiset(s[1..], l);
      assert multiset([l] + Drop(s, l)) == multiset([s[0]]) + multiset([l] + Drop(s[1..], l));
    }
  }

  /** Blocks other than tb are left alone. */
  ghost predicate Others(m: Memory, m': Memory, tb: Ptr) {
    forall t :: t in m && t != tb ==> t in m' && m'[t] == m[t]
  }

  /** What the translation of [pc, pc + size) needs of the address map. */
  predicate Translatable(pc: nat, code: nat -> nat, size: nat) {
    && 1 <= size <= PAGE && code(pc) % PAGE == pc % PAGE
    && (pc % PAGE + size > PAGE ==> code(pc / PAGE * PAGE + PAGE) % PAGE == 0)
  }

  /** Block tb is a translation of `size` bytes at pc under the given address map. */
  ghost predicate Describes(m: Memory, tb: Ptr, pc: nat, csBase: nat, flags: nat, code: nat -> nat, size: nat) {
    && tb in m && m[tb].pc == pc && m[tb].csBase == csBase && m[tb].flags == flags && m[tb].size == size
    && m[tb].page0 == code(pc) / PAGE * PAGE
    && m[tb].page1 == if pc % PAGE + size > PAGE then code(pc / PAGE * PAGE + PAGE) else -1
  }

  lemma SecondPage(pc: nat, size: nat)
    requires 1 <= size <= PAGE
    ensures pc / PAGE * PAGE != (pc + size - 1) / PAGE * PAGE <==> pc % PAGE + size > PAGE
    ensures pc % PAGE + size > PAGE ==> (pc + size - 1) / PAGE * PAGE == pc / PAGE * PAGE + PAGE
  {
    var o := pc % PAGE + size - 1;
    if o < PAGE {
      assert (PAGE * (pc / PAGE) + o) / PAGE == pc / PAGE;
    } else {
      assert (PAGE * (pc / PAGE + 1) + (o - PAGE)) / PAGE == pc / PAGE + 1;
    }
  }

  /** The physical address of the second page, if the block reaches it. */
  function SecondPhys(pc: nat, size: nat, code: nat -> nat): int
    requires size >= 1
  {
    var virtPage2 := (pc + size - 1) / PAGE * PAGE;
    if pc / PAGE * PAGE != virtPage2 then code(virtPage2) else -1
  }

  function WithPages(b: Tb, code: nat -> nat): Tb
    requires b.size >= 1
  {
    b.(page0 := code(b.pc) / PAGE * PAGE, page1 := SecondPhys(b.pc, b.size, code))
  }

  lemma GenShaped(b: Tb, code: nat -> nat)
    requires Translatable(b.pc, code, b.size)
    ensures Shaped(WithPages(b, code))
  {
    SecondPage(b.pc, b.size);
  }

  lemma GenAdded(full: bool, v0: View, v1: View, v: View, tb: Ptr, code: nat -> nat)
    requires tb in v1.mem && 1 <= v1.mem[tb].size <= PAGE && Others(v0.mem, v1.mem, tb) && tb !in v1.live
    requires if full then v1.live == {} && v1.lists == map[] && v1.rings == map[]
             else v1.live == v0.live && v1.lists == v0.lists && v1.rings == v0.rings
    requires var m1 := v1.mem[tb := WithPages(v1.mem[tb], code)];
      Same(m1, v.mem) && Others(m1, v.mem, tb) && v.lists == PushFields(m1, v1.lists, tb)
    requires v.live == v1.live + {tb} && v.rings == v1.rings[tb := [J.To(tb, 2)]]
    ensures Added(full, v0, v, tb) && Others(v0.mem, v.mem, tb)
    ensures Describes(v.mem, tb, v1.mem[tb].pc, v1.mem[tb].csBase, v1.mem[tb].flags, code, v1.mem[tb].size)
  {
    GenDone(v0.mem, v1.mem, v.mem, tb, code, v1.lists);
  }

  lemma GenDone(m: Memory, m0: Memory, m': Memory, tb: Ptr, code: nat -> nat, lists: Lists)
    requires tb in m0 && 1 <= m0[tb].size <= PAGE && Others(m, m0, tb)
    requires Same(m0[tb := WithPages(m0[tb], code)], m') && Others(m0[tb := WithPages(m0[tb], code)], m', tb)
    ensures Others(m, m', tb) && Describes(m', tb, m0[tb].pc, m0[tb].csBase, m0[tb].flags, code, m0[tb].size)
    ensures PushFields(m', lists, tb) == PushFields(m0[tb := WithPages(m0[tb], code)], lists, tb)
  {
    SecondPage(m0[tb].pc, m0[tb].size);
  }

  /** The comparison of tb_find_slow. */
  predicate Matches(b: Tb, pc: nat, csBase: nat, flags: nat, code: nat -> nat) {
    && b.pc == pc && b.page0 == code(pc) / PAGE * PAGE && b.csBase == csBase && b.flags == flags
    && (b.page1 != -1 ==> b.page1 == code(pc / PAGE * PAGE + PAGE))
  }

  /** The block was translated from pc, and every byte of its code is where the address map puts it. */
  ghost predicate Translates(b: Tb, pc: nat, csBase: nat, flags: nat, code: nat -> nat) {
    && b.pc == pc && b.csBase == csBase && b.flags == flags
    && forall k: nat :: k < b.size ==>
         ByteAt(b, k) == if pc % PAGE + k < PAGE then code(pc) + k
                         else code(pc / PAGE * PAGE + PAGE) + (pc % PAGE + k - PAGE)
  }

  /** The comparison of tb_find_slow, which looks at page addresses only, decides this. */
  lemma MatchesIff(b: Tb, pc: nat, csBase: nat, flags: nat, code: nat -> nat)
    requires Shaped(b) && code(pc) % PAGE == pc % PAGE
    ensures Matches(b, pc, csBase, flags, code) <==> Translates(b, pc, csBase, flags, code)
  {
    assert code(pc) == code(pc) / PAGE * PAGE + pc % PAGE;
    if Translates(b, pc, csBase, flags, code) {
      assert ByteAt(b, 0) == code(pc);
      if TwoPages(b) {
        assert ByteAt(b, PAGE - pc % PAGE) == code(pc / PAGE * PAGE + PAGE);
      }
    }
  }

  /** The entry is the first on the chain of physical address physPc. */
  ghost predicate First(lists: Lists, l: Link, physPc: nat) {
    var s := ListOf(lists, Bucket(PhysHash(physPc))); s != [] && s[0] == l
  }

  lemma FirstIsBlock(full: bool, v0: View, v: View, tb: Ptr, code: nat -> nat)
    requires Reused(v0, v, tb) || Added(full, v0, v, tb)
    requires code(v.mem[tb].pc) == PhysPc(v.mem[tb])
    ensures First(v.lists, To(tb, 2), code(v.mem[tb].pc))
  {
    if !Reused(v0, v, tb) {
      PushedChain(v.mem, if full then map[] else v0.lists, tb);
    }
  }

  ghost predicate NoMatch(m: Memory, s: seq<Link>, pc: nat, csBase: nat, flags: nat, code: nat -> nat) {
    forall l :: l in s ==> l.To? && l.tb in m && !Matches(m[l.tb], pc, csBase, flags, code)
  }

  /** A linked block that matches is on the chain that is searched. */
  lemma MatchIsOnChain(m: Memory, heads: Heads, lists: Lists, on: set<Link>, live: set<Ptr>, t: Ptr,
                       pc: nat, csBase: nat, flags: nat, code: nat -> nat)
    requires Indexed(m, heads, lists, on) && Threaded(m, on, live) && t in live && code(pc) % PAGE == pc % PAGE
    requires Matches(m[t], pc, csBase, flags, code)
    ensures To(t, 2) in ListOf(lists, Bucket(PhysHash(code(pc))))
  {
    var id := Bucket(PhysHash(code(pc)));
    assert ListOk(m, heads, lists, on, id);
    assert m[t].page0 + pc % PAGE == code(pc);
    assert IsField(m, To(t, 2)) && Home(m, To(t, 2)) == id;
  }

  lemma PushedChain(m: Memory, lists: Lists, tb: Ptr)
    requires tb in m
    ensures var id := Home(m, To(tb, 2));
      id in PushFields(m, lists, tb) && PushFields(m, lists, tb)[id] == [To(tb, 2)] + ListOf(lists, id)
  {
  }

  lemma SamePush(m: Memory, m': Memory, lists: Lists, tb: Ptr)
    requires tb in m && Same(m, m')
    ensures PushFields(m', lists, tb) == PushFields(m, lists, tb)
  {
  }

  /** The link where an unsuccessful search ended, once the new block has been linked. */
  lemma AfterGen(m0: Memory, m: Memory, heads: Heads, lists: Lists, on: set<Link>, base: Lists, tb: Ptr, h: nat,
                 prev: Link)
    requires Indexed(m, heads, lists, on) && tb in m && lists == PushFields(m, base, tb)
    requires Home(m, To(tb, 2)) == Bucket(h)
    requires Others(m0, m, tb)
    requires prev == Null ==> ListOf(base, Bucket(h)) == []
    requires prev != Null ==> prev == To(prev.tb, 2) && prev.tb in m0 && Val(m0, prev) == Null
    requires prev != Null && prev.tb == tb ==> base == map[]
    ensures prev != Null ==> prev.tb in m && Val(m, prev) == Null
    ensures prev == Null ==> ListOf(lists, Bucket(h)) == [To(tb, 2)] && Bucket(h) in lists
  {
    PushedChain(m, base, tb);
    assert ListOk(m, heads, lists, on, Bucket(h));
    if prev != Null && prev.tb == tb {
      var s := ListOf(lists, Bucket(h));
      assert s == [To(tb, 2)] && s[1..] == [];
      assert List(m, Val(m, s[0]), s[1..]);
    }
  }

  lemma SearchEnd(full: bool, v0: View, v: View, heads: Heads, on: set<Link>, tb: Ptr, h: nat, prev: Link,
                  code: nat -> nat)
    requires Added(full, v0, v, tb) && Indexed(v.mem, heads, v.lists, on) && Others(v0.mem, v.mem, tb)
    requires var b := v.mem[tb];
      h == PhysHash(code(b.pc)) && code(b.pc) % PAGE == b.pc % PAGE && b.page0 == code(b.pc) / PAGE * PAGE
    requires prev == Null ==> ListOf(v0.lists, Bucket(h)) == []
    requires prev != Null ==>
      prev.tb in v0.live && prev == To(prev.tb, 2) && prev.tb in v0.mem && Val(v0.mem, prev) == Null
    ensures prev != Null ==> prev.tb in v.mem && Val(v.mem, prev) == Null
    ensures prev == Null ==> ListOf(v.lists, Bucket(h)) == [To(tb, 2)] && Bucket(h) in v.lists
  {
    assert Home(v.mem, To(tb, 2)) == Bucket(h);
    AfterGen(v0.mem, v.mem, heads, v.lists, on, if full then map[] else v0.lists, tb, h, prev);
  }

  lemma StillAdded(full: bool, v0: View, v: View, m: Memory, tb: Ptr, pc: nat, csBase: nat, flags: nat,
                   code: nat -> nat, size: nat)
    requires Added(full, v0, v, tb) && Same(v.mem, m) && Describes(v.mem, tb, pc, csBase, flags, code, size)
    ensures Added(full, v0, v.(mem := m), tb) && tb in m && Matches(m[tb], pc, csBase, flags, code)
  {
    SamePush(v.mem, m, if full then map[] else v0.lists, tb);
  }

  lemma EmptyBitmap(m: Memory, bits: seq<B.byte>)
    requires |bits| == BITMAP_SIZE && forall i :: 0 <= i < |bits| ==> bits[i] == 0
    ensures Exact(m, [], bits)
  {
    forall o: nat | o < PAGE ensures !B.BitAt(bits, o) {
      B.ZeroBit(o % 8);
      assert bits[o / 8] == 0;
    }
  }

  lemma BitmapStep(m: Memory, s: seq<Link>, i: nat, bits: seq<B.byte>, bits': seq<B.byte>, start: nat, end: nat)
    requires i < |s| && IsField(m, s[i]) && Exact(m, s[..i], bits) && B.BitsSet(bits, bits', start, end)
    requires start == ExtentStart(m[s[i].tb], s[i].n) && end == MinInt(ExtentEnd(m[s[i].tb], s[i].n), PAGE)
    ensures Exact(m, s[..i + 1], bits')
  {
    assert s[..i + 1] == s[..i] + [s[i]];
    forall o: nat | o < PAGE ensures B.BitAt(bits', o) <==> CoveredBy(m, s[..i + 1], o) {
      CoverStep(m, s[..i], s[i], o);
    }
  }

  function Next(rest: seq<Link>): Link { if rest == [] then Null else rest[0] }

  /**
    The loop of tb_invalidate_phys_page_range is about to look at entry l: the list is what is
    left of the entries before it, then l and the rest.  The second entry of a block that its
    first entry made go is no longer on the list, but still leads to the rest.
   */
  ghost predicate OnWalk(m: Memory, lists: Lists, live: set<Ptr>, p: nat, l: Link, pre: seq<Link>, rest: seq<Link>) {
    && l.To? && l.n <= 1 && l.tb in m && IsField(m, l)
    && (ListOf(lists, Page(p)) == pre + [l] + rest
        || (l.n == 0 && l.tb !in live && ListOf(lists, Page(p)) == pre + rest && Val(m, l) == Next(rest)))
  }

  /** The entry after position i, and where it leads. */
  lemma EntryAt(m: Memory, heads: Heads, lists: Lists, on: set<Link>, live: set<Ptr>, p: nat, pre: seq<Link>,
                l: Link, rest: seq<Link>)
    requires Indexed(m, heads, lists, on) && Threaded(m, on, live) && ListOf(lists, Page(p)) == pre + [l] + rest
    ensures IsField(m, l) && l.n <= 1 && l.tb in live && l in ListOf(lists, Page(p)) && Val(m, l) == Next(rest)
  {
    var s := ListOf(lists, Page(p));
    assert ListOk(m, heads, lists, on, Page(p));
    assert s[|pre|] == l && s[|pre| + 1..] == rest;
    ListSuffix(m, HeadOf(heads, Page(p)), s, |pre| + 1);
  }

  lemma JoinRest(a: seq<Link>, rest: seq<Link>)
    requires rest != []
    ensures a + rest == a + [rest[0]] + rest[1..]
  {
  }

  /** Passing over an entry. */
  lemma WalkOn(m: Memory, heads: Heads, lists: Lists, on: set<Link>, live: set<Ptr>, p: nat, l: Link,
               pre: seq<Link>, rest: seq<Link>)
    returns (pre': seq<Link>)
    requires Indexed(m, heads, lists, on) && Threaded(m, on, live) && OnWalk(m, lists, live, p, l, pre, rest)
    ensures Val(m, l) == Next(rest) && (rest != [] ==> OnWalk(m, lists, live, p, rest[0], pre', rest[1..]))
  {
    if ListOf(lists, Page(p)) == pre + [l] + rest {
      EntryAt(m, heads, lists, on, live, p, pre, l, rest);
      pre' := pre + [l];
    } else {
      pre' := pre;
    }
    if rest != [] {
      JoinRest(pre', rest);
      EntryAt(m, heads, lists, on, live, p, pre', rest[0], rest[1..]);
    }
  }

  /** Two entries of one block. */
  lemma LaterEntry(m: Memory, heads: Heads, lists: Lists, on: set<Link>, live: set<Ptr>, p: nat, i: nat, j: nat)
    requires Indexed(m, heads, lists, on) && Threaded(m, on, live) && AllPaired(m, lists, live)
    requires var s := ListOf(lists, Page(p)); i < j < |s| && s[i].To? && s[j].To? && s[i].tb == s[j].tb
    ensures var s := ListOf(lists, Page(p)); j == i + 1 && s[i] == To(s[i].tb, 1) && s[j] == To(s[i].tb, 0)
  {
    var s := ListOf(lists, Page(p));
    var t := s[i].tb;
    assert ListOk(m, heads, lists, on, Page(p));
    assert s[i] in s && s[j] in s && s[i] != s[j];
    EntriesOf(m, heads, lists, on, live, Page(p), s[i]);
    assert Paired(s, t);
    var k :| 0 <= k < |s| - 1 && s[k] == To(t, 1) && s[k + 1] == To(t, 0);
    assert s[j] == To(t, 1 - s[i].n);
  }

  /** What follows an entry once its block is off the list. */
  function RestWithout(rest: seq<Link>, t: Ptr): seq<Link> {
    if rest != [] && rest[0] == To(t, 0) then rest[1..] else rest
  }

  lemma DropAround(m: Memory, heads: Heads, lists: Lists, on: set<Link>, live: set<Ptr>, p: nat, pre: seq<Link>,
                   l: Link, rest: seq<Link>)
    requires Indexed(m, heads, lists, on) && Threaded(m, on, live) && AllPaired(m, lists, live)
    requires ListOf(lists, Page(p)) == pre + [l] + rest && l.To?
    ensures DropTb(pre + [l] + rest, l.tb) == DropTb(pre, l.tb) + RestWithout(rest, l.tb)
  {
    var s, t, tail := pre + [l] + rest, l.tb, RestWithout(rest, l.tb);
    assert rest != [] ==> s[|pre| + 1] == rest[0];
    forall j | 0 <= j < |tail| ensures !(tail[j].To? && tail[j].tb == t) {
      if tail[j].To? && tail[j].tb == t {
        assert s[|s| - |tail| + j] == tail[j] && s[|pre|] == l;
        LaterEntry(m, heads, lists, on, live, p, |pre|, |s| - |tail| + j);
        assert false;
      }
    }
    DropTbAbsent(tail, t);
    DropTbConcat(pre + [l], rest, t);
    DropTbConcat(pre, [l], t);
  }

  /** Passing over an entry that makes its block go. */
  lemma WalkDropped(m: Memory, heads: Heads, lists: Lists, on: set<Link>, live: set<Ptr>, p: nat, l: Link,
                    pre: seq<Link>, rest: seq<Link>, m': Memory, lists': Lists)
    requires Indexed(m, heads, lists, on) && Threaded(m, on, live) && AllPaired(m, lists, live)
    requires OnWalk(m, lists, live, p, l, pre, rest) && l.tb in live
    requires Same(m, m') && m'[l.tb] == m[l.tb] && AllDropped(lists, lists', l.tb)
    ensures rest != [] ==> OnWalk(m', lists', live - {l.tb}, p, rest[0], DropTb(pre, l.tb), rest[1..])
  {
    DropAround(m, heads, lists, on, live, p, pre, l, rest);
    assert ListOf(lists', Page(p)) == DropTb(pre, l.tb) + RestWithout(rest, l.tb);
    if rest != [] {
      JoinRest(pre + [l], rest);
      JoinRest(DropTb(pre, l.tb), rest);
      EntryAt(m, heads, lists, on, live, p, pre + [l], rest[0], rest[1..]);
    }
  }

  /** Both entries of a block whose pages are the same overlap the range; seen at the later one. */
  predicate HitTwice(m: Memory, l: Link, start: int, end: int) {
    l.To? && l.n == 0 && l.tb in m && Doubled(m[l.tb]) && Overlaps(m[l.tb], 0, start, end) &&
    Overlaps(m[l.tb], 1, start, end)
  }

  ghost predicate NoneHitTwice(m: Memory, s: seq<Link>, start: int, end: int) {
    forall l :: l in s ==> !HitTwice(m, l, start, end)
  }

  lemma OneMoreEntry(m: Memory, s: seq<Link>, i: nat, start: int, end: int)
    requires i < |s|
    ensures NoneHitTwice(m, s[..i + 1], start, end) <==>
      NoneHitTwice(m, s[..i], start, end) && !HitTwice(m, s[i], start, end)
    ensures NoneHitTwice(m, s, start, end) ==> !HitTwice(m, s[i], start, end)
  {
    assert s[..i + 1] == s[..i] + [s[i]];
    assert s[i] in s;
  }

  /** The loop meets an overlapping entry of a block that is already gone iff this is its second hit. */
  lemma SecondHit(m: Memory, heads: Heads, lists: Lists, on: set<Link>, live0: set<Ptr>, live: set<Ptr>, p: nat,
                  i: nat, start: nat, end: nat)
    requires Indexed(m, heads, lists, on) && Threaded(m, on, live0) && AllPaired(m, lists, live0)
    requires i < |ListOf(lists, Page(p))| && Scanned(m, ListOf(lists, Page(p))[..i], live0, live, start, end)
    ensures var l := ListOf(lists, Page(p))[i];
      && l.To? && l.tb in m
      && (Overlaps(m[l.tb], l.n, start, end) && l.tb !in live <==> HitTwice(m, l, start, end))
  {
    var s := ListOf(lists, Page(p));
    var l := s[i];
    assert l in s;
    assert ListOk(m, heads, lists, on, Page(p));
    EntriesOf(m, heads, lists, on, live0, Page(p), l);
    var t := l.tb;
    if t !in live {
      var n: nat :| To(t, n) in s[..i] && Overlaps(m[t], n, start, end);
      var j :| 0 <= j < i && s[j] == To(t, n);
      assert s[j] in s && s[j] != l;
      PairAt(s, t, i);
      PairAt(s, t, j);
    }
    if HitTwice(m, l, start, end) {
      EntriesOf(m, heads, lists, on, live0, Page(p), l);
      assert Home(m, l) == Page(p);
      PairAt(s, t, i);
      assert To(t, 1) in s[..i] by {
        assert s[..i][i - 1] == To(t, 1);
      }
      assert Struck(m, s[..i], t, start, end);
    }
  }

  lemma ListShape(m: Memory, heads: Heads, lists: Lists, on: set<Link>, p: nat)
    requires Indexed(m, heads, lists, on)
    ensures var s := ListOf(lists, Page(p)); HeadOf(heads, Page(p)) == if s == [] then Null else s[0]
    ensures forall l :: l in ListOf(lists, Page(p)) ==> IsField(m, l) && l.n <= 1 && l in on
    ensures forall j :: 0 <= j < |ListOf(lists, Page(p))| ==> ListOf(lists, Page(p))[j] != Null
  {
    var s := ListOf(lists, Page(p));
    assert ListOk(m, heads, lists, on, Page(p));
    forall j | 0 <= j < |s| ensures s[j] != Null {
      assert s[j] in s;
    }
  }

  /** What is left once the entries s have been visited. */
  ghost predicate Scanned(m: Memory, s: seq<Link>, live: set<Ptr>, live': set<Ptr>, start: nat, end: nat) {
    forall t :: t in live' <==> t in live && t in m && !Struck(m, s, t, start, end)
  }

  /** Block t has an entry in s that overlaps the range. */
  ghost predicate Struck(m: Memory, s: seq<Link>, t: Ptr, start: nat, end: nat)
    requires t in m
  {
    exists n: nat :: To(t, n) in s && Overlaps(m[t], n, start, end)
  }

  lemma ScanStep(m: Memory, s: seq<Link>, i: nat, live0: set<Ptr>, live: set<Ptr>, live': set<Ptr>, start: nat,
                 end: nat)
    requires i < |s| && s[i].To? && s[i].tb in m && Scanned(m, s[..i], live0, live, start, end)
    requires live' == if Overlaps(m[s[i].tb], s[i].n, start, end) then live - {s[i].tb} else live
    ensures Scanned(m, s[..i + 1], live0, live', start, end)
  {
    var l := s[i];
    assert s[..i + 1] == s[..i] + [l];
    forall t | t in m
      ensures Struck(m, s[..i + 1], t, start, end) <==>
        Struck(m, s[..i], t, start, end) || (t == l.tb && Overlaps(m[t], l.n, start, end))
    {
      if n: nat :| To(t, n) in s[..i] && Overlaps(m[t], n, start, end) {
        assert To(t, n) in s[..i + 1];
      }
      if t == l.tb && Overlaps(m[t], l.n, start, end) {
        assert To(t, l.n) in s[..i + 1];
      }
    }
  }

  lemma SameEntry(m: Memory, m': Memory, l: Link, start: nat, end: nat)
    requires Same(m, m') && l.To? && l.tb in m
    ensures l.tb in m' && (Overlaps(m'[l.tb], l.n, start, end) <==> Overlaps(m[l.tb], l.n, start, end))
  {
  }

  lemma ScanStart(m: Memory, s: seq<Link>, live: set<Ptr>, on: set<Link>, start: nat, end: nat)
    requires Threaded(m, on, live)
    ensures Scanned(m, s[..0], live, live, start, end)
  {
  }

  /**
    The chaining and the jump cache of the remaining blocks are what they were: a jump between
    two of them is chained iff it was, and a cache slot is kept iff its block remains.
   */
  ghost predicate Intact(rings: J.Rings, cache: Cache, rings': J.Rings, cache': Cache) {
    && rings'.Keys <= rings.Keys
    && (forall t, s, n :: t in rings' && s in rings' ==> (J.To(s, n) in rings'[t] <==> J.To(s, n) in rings[t]))
    && (forall k :: k in cache' <==> k in cache && cache[k] in rings')
    && (forall k :: k in cache' ==> cache'[k] == cache[k])
  }

  lemma CachedIsLinked(m: Memory, live: set<Ptr>, cache: Cache, cpus: nat, hash: nat -> nat)
    requires CacheOk(m, live, cache, cpus, hash)
    ensures forall k :: k in cache ==> cache[k] in live
  {
    forall k | k in cache ensures cache[k] in live {
      assert (k.0, k.1) in cache;
    }
  }

  lemma IntactSame(m: Memory, rings: J.Rings, cache: Cache, cpus: nat, hash: nat -> nat)
    requires CacheOk(m, rings.Keys, cache, cpus, hash)
    ensures Intact(rings, cache, rings, cache)
  {
    CachedIsLinked(m, rings.Keys, cache, cpus, hash);
  }

  lemma IntactTrans(r1: J.Rings, c1: Cache, r2: J.Rings, c2: Cache, r3: J.Rings, c3: Cache)
    requires Intact(r1, c1, r2, c2) && Intact(r2, c2, r3, c3)
    ensures Intact(r1, c1, r3, c3)
  {
  }

  lemma IntactUnlink(m: Memory, rings: J.Rings, cache: Cache, cpus: nat, hash: nat -> nat, tb: Ptr)
    requires CacheOk(m, rings.Keys, cache, cpus, hash)
    ensures Intact(rings, cache, J.RemoveLink(J.RemoveLink(rings, J.To(tb, 0)), J.To(tb, 1)) - {tb},
      CacheWithout(cache, tb))
  {
    CachedIsLinked(m, rings.Keys, cache, cpus, hash);
    var r1 := J.RemoveLink(rings, J.To(tb, 0));
    var rings' := J.RemoveLink(r1, J.To(tb, 1)) - {tb};
    forall t, s, n | t in rings' && s in rings' ensures J.To(s, n) in rings'[t] <==> J.To(s, n) in rings[t] {
      DropKeeps(rings[t], J.To(tb, 0), J.To(s, n));
      DropKeeps(r1[t], J.To(tb, 1), J.To(s, n));
    }
  }

  /** live' is what remains of live without the blocks that have code in [start, end). */
  ghost predicate Spared(m: Memory, live: set<Ptr>, live': set<Ptr>, start: int, end: int) {
    forall t :: t in live' <==> t in live && t in m && !Touches(m[t], start, end)
  }

  lemma HitIffTouched(m: Memory, heads: Heads, lists: Lists, on: set<Link>, live: set<Ptr>, t: Ptr, start: nat,
                      end: nat)
    requires Indexed(m, heads, lists, on) && Threaded(m, on, live) && t in live && start < end
    ensures Struck(m, ListOf(lists, Page(start / PAGE)), t, start, end) <==>
      Touches(m[t], start, MinInt(end, PageEnd(start)))
  {
    var s := ListOf(lists, Page(start / PAGE));
    ListShape(m, heads, lists, on, start / PAGE);
    if n: nat :| To(t, n) in s && Overlaps(m[t], n, start, end) {
      EntryPage(m, heads, lists, on, start / PAGE, To(t, n));
      assert Shaped(m[t]);
      OverlapIsTouch(m[t], n, start, end);
    }
    if Touches(m[t], start, MinInt(end, PageEnd(start))) {
      TouchIsListed(m, heads, lists, on, live, t, start, end);
    }
  }

  lemma EntryPage(m: Memory, heads: Heads, lists: Lists, on: set<Link>, p: nat, l: Link)
    requires Indexed(m, heads, lists, on) && l in ListOf(lists, Page(p))
    ensures IsField(m, l) && l.n <= 1 && PageAddr(m[l.tb], l.n) / PAGE == p
  {
    assert ListOk(m, heads, lists, on, Page(p));
  }

  /** Some code byte of each of b's two parts, on one and the same page, lies in [start, end). */
  predicate Twice(b: Tb, start: int, end: int) {
    Doubled(b) && start < b.page0 + b.pc % PAGE + b.size - PAGE && b.page0 + b.pc % PAGE < end
  }

  ghost predicate AllShaped(m: Memory, live: set<Ptr>) { forall t :: t in live && t in m ==> Shaped(m[t]) }

  ghost predicate NoneTwice(m: Memory, live: set<Ptr>, start: int, end: int) {
    forall t :: t in live && t in m ==> !Twice(m[t], start, end)
  }

  lemma TwiceOnPage(b: Tb, start: nat, end: nat)
    requires Shaped(b) && start < end
    ensures Twice(b, start, MinInt(end, PageEnd(start))) <==>
      Doubled(b) && b.page0 / PAGE == start / PAGE && Overlaps(b, 0, start, end) && Overlaps(b, 1, start, end)
  {
    if Doubled(b) {
      ModOnce(b.pc, b.size);
    }
  }

  /** The loop's condition on the list of a page, said of the linked blocks. */
  lemma TwiceIsHit(m: Memory, heads: Heads, lists: Lists, on: set<Link>, live: set<Ptr>, start: nat, end: nat)
    requires Indexed(m, heads, lists, on) && Threaded(m, on, live) && start < end
    ensures NoneHitTwice(m, ListOf(lists, Page(start / PAGE)), start, end) <==>
      NoneTwice(m, live, start, MinInt(end, PageEnd(start)))
  {
    var s := ListOf(lists, Page(start / PAGE));
    assert ListOk(m, heads, lists, on, Page(start / PAGE));
    forall t | t in live
      ensures t in m && (Twice(m[t], start, MinInt(end, PageEnd(start))) ==>
        To(t, 0) in s && HitTwice(m, To(t, 0), start, end))
    {
      TwiceOnPage(m[t], start, end);
      assert IsField(m, To(t, 0)) && To(t, 0) in on;
    }
    forall l | l in s && HitTwice(m, l, start, end)
      ensures l.tb in live && Twice(m[l.tb], start, MinInt(end, PageEnd(start)))
    {
      assert Home(m, l) == Page(start / PAGE);
      TwiceOnPage(m[l.tb], start, end);
    }
  }

  lemma TwiceTouches(b: Tb, start: int, end: int)
    requires Shaped(b) && Twice(b, start, end)
    ensures Touches(b, start, end)
  {
    assert start <= ByteAt(b, 0) < end;
  }

  lemma SparedIsOnce(m: Memory, on: set<Link>, live: set<Ptr>, start: int, end: int)
    requires Threaded(m, on, live) && Spared(m, live, live, start, end)
    ensures NoneTwice(m, live, start, end)
  {
    forall t | t in live && t in m ensures !Twice(m[t], start, end) {
      if Twice(m[t], start, end) {
        TwiceTouches(m[t], start, end);
      }
    }
  }

  lemma NoneTwiceLess(m: Memory, live: set<Ptr>, from: int, end: int, end': int)
    requires end <= end'
    ensures NoneTwice(m, live, from, end') ==> NoneTwice(m, live, from, end)
  {
  }

  /** The range may be cut at a page boundary, and blocks that have gone by then do not matter. */
  lemma NoneTwiceMore(m0: Memory, m: Memory, live0: set<Ptr>, live: set<Ptr>, from: nat, start: nat, end: int)
    requires Same(m0, m) && from <= start <= end && (start == from || start % PAGE == 0)
    requires AllShaped(m0, live0)
    requires Spared(m0, live0, live, from, start) && NoneTwice(m0, live0, from, start)
    ensures NoneTwice(m0, live0, from, end) <==> NoneTwice(m, live, start, end)
  {
    forall t | t in live0 && t in m0
      ensures Twice(m0[t], from, end) <==> t in live && Twice(m[t], start, end)
    {
      CutTwice(m0[t], from, start, end);
      assert Twice(m[t], start, end) <==> Twice(m0[t], start, end);
    }
  }

  lemma CutTwice(b: Tb, from: nat, start: nat, end: int)
    requires Shaped(b) && from <= start <= end && (start == from || start % PAGE == 0)
    ensures Twice(b, from, end) <==> Twice(b, from, start) || Twice(b, start, end)
    ensures Twice(b, start, end) && start != from ==> !Touches(b, from, start)
    ensures !Touches(b, from, from)
  {
    if Doubled(b) && start % PAGE == 0 {
      assert b.page0 + PAGE <= start || start <= b.page0;
      assert start <= b.page0 ==> forall k: nat :: k < b.size ==> ByteAt(b, k) >= start;
    }
  }

  lemma ScannedIsSpared(m: Memory, heads: Heads, lists: Lists, on: set<Link>, live: set<Ptr>, live': set<Ptr>,
                        start: nat, end: nat)
    requires Indexed(m, heads, lists, on) && Threaded(m, on, live) && start < end
    requires Scanned(m, ListOf(lists, Page(start / PAGE)), live, live', start, end)
    ensures Spared(m, live, live', start, MinInt(end, PageEnd(start)))
  {
    forall t | t in live
      ensures t in m && (Struck(m, ListOf(lists, Page(start / PAGE)), t, start, end) <==>
                         Touches(m[t], start, MinInt(end, PageEnd(start))))
    {
      HitIffTouched(m, heads, lists, on, live, t, start, end);
    }
  }

  lemma NothingListed(m: Memory, heads: Heads, lists: Lists, on: set<Link>, live: set<Ptr>, start: nat, end: nat)
    requires Indexed(m, heads, lists, on) && Threaded(m, on, live) && HeadOf(heads, Page(start / PAGE)) == Null
    requires start < end
    ensures Spared(m, live, live, start, MinInt(end, PageEnd(start)))
    ensures NoneTwice(m, live, start, MinInt(end, PageEnd(start)))
  {
    ListShape(m, heads, lists, on, start / PAGE);
    assert ListOf(lists, Page(start / PAGE)) == [];
    ScannedIsSpared(m, heads, lists, on, live, live, start, end);
    SparedIsOnce(m, on, live, start, MinInt(end, PageEnd(start)));
  }

  lemma NothingTouched(m: Memory, on: set<Link>, live: set<Ptr>, start: nat)
    requires Threaded(m, on, live)
    ensures Spared(m, live, live, start, start) && NoneTwice(m, live, start, start) && AllShaped(m, live)
  {
    SparedIsOnce(m, on, live, start, start);
  }

  lemma SparedMore(m0: Memory, m: Memory, live0: set<Ptr>, live: set<Ptr>, live': set<Ptr>, from: nat, start: nat,
                   end: nat)
    requires Same(m0, m) && from <= start <= end && Spared(m0, live0, live, from, start)
    requires Spared(m, live, live', start, end)
    ensures Spared(m0, live0, live', from, end)
  {
    forall t | t in m0
      ensures Touches(m0[t], from, end) <==> Touches(m0[t], from, start) || Touches(m[t], start, end)
    {
      SameTouch(m0[t], m[t], start, end);
      if k: nat :| k < m0[t].size && from <= ByteAt(m0[t], k) < end {
        assert ByteAt(m0[t], k) < start || start <= ByteAt(m0[t], k);
      }
    }
  }

  lemma SameTouch(a: Tb, b: Tb, start: int, end: int)
    requires Fixed(b, a)
    ensures Touches(b, start, end) <==> Touches(a, start, end)
  {
    assert forall k: nat :: ByteAt(b, k) == ByteAt(a, k);
  }

  lemma WithinPage(start: nat, len: nat)
    requires B.AccessSize(len) && start % len == 0
    ensures start % PAGE % len == 0 && start % PAGE + len <= PAGE && MinInt(start + len, PageEnd(start)) == start + len
  {
    assert start == PAGE * (start / PAGE) + start % PAGE;
  }

  /** A clear stretch of an exact bitmap means that no block has code there. */
  lemma ClearBits(m: Memory, heads: Heads, lists: Lists, on: set<Link>, live: set<Ptr>, bits: seq<B.byte>,
                  start: nat, len: nat)
    requires Indexed(m, heads, lists, on) && Threaded(m, on, live) && B.AccessSize(len) && start % len == 0
    requires Exact(m, ListOf(lists, Page(start / PAGE)), bits)
    requires !B.AnyBit(bits[start % PAGE / 8], start % PAGE % 8, len)
    ensures Spared(m, live, live, start, start + len)
  {
    WithinPage(start, len);
    var offset := start % PAGE;
    B.Probe(bits, offset, len);
    var s := ListOf(lists, Page(start / PAGE));
    forall t | t in live ensures t in m && !Touches(m[t], start, start + len) {
      if Touches(m[t], start, start + len) {
        HitIffTouched(m, heads, lists, on, live, t, start, start + len);
        var n: nat :| To(t, n) in s && Overlaps(m[t], n, start, start + len);
        EntryPage(m, heads, lists, on, start / PAGE, To(t, n));
        HitIsCovered(m, s, on, live, To(t, n), start, len);
      }
    }
  }

  lemma HitIsCovered(m: Memory, s: seq<Link>, on: set<Link>, live: set<Ptr>, l: Link, start: nat, len: nat)
    requires Threaded(m, on, live) && l in s && IsField(m, l) && l.n <= 1 && l.tb in live
    requires PageAddr(m[l.tb], l.n) / PAGE == start / PAGE
    requires Overlaps(m[l.tb], l.n, start, start + len) && start % PAGE + len <= PAGE && len > 0
    ensures exists o: nat :: start % PAGE <= o < start % PAGE + len && o < PAGE && CoveredBy(m, s, o)
  {
    var b := m[l.tb];
    assert Shaped(b);
    var o := if ExtentStart(b, l.n) < start % PAGE then start % PAGE else ExtentStart(b, l.n);
    assert PageAddr(b, l.n) == start / PAGE * PAGE;
    assert CoveredBy(m, s, o);
  }
}
