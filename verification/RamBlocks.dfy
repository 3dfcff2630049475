/** RAM blocks (exec.c): allocation of ram offsets, and lookup with a most-recently-used block. */
module RamBlocks {
  import opened Collections

  const PAGE: nat := 4096
  const WORD: nat := 0x1_0000_0000_0000_0000
  const RAM_ADDR_MAX: nat := 0xffff_ffff_ffff_ffff

  /** host is 0 for a block that is not mapped. */
  datatype Block = Block(offset: nat, length: nat, host: nat)

  /** Unsigned subtraction. */
  function Sub(a: nat, b: nat): int
    requires a < WORD && b < WORD
  {
    if a >= b then a - b else a - b + WORD
  }

  predicate Contains(b: Block, addr: int) { b.offset <= addr < b.offset + b.length }

  predicate BlockOk(b: Block) {
    b.length > 0 && b.offset % PAGE == 0 && b.length % PAGE == 0 && b.offset + b.length <= RAM_ADDR_MAX &&
      b.host + b.length < WORD
  }

  predicate Apart(a: Block, b: Block) { a.offset + a.length <= b.offset || b.offset + b.length <= a.offset }

  /** Blocks are page-aligned and pairwise disjoint, in whatever order they are listed. */
  ghost predicate BlocksOk(blocks: seq<Block>) {
    && (forall i :: 0 <= i < |blocks| ==> BlockOk(blocks[i]))
    && (forall i, j :: 0 <= i < j < |blocks| ==> Apart(blocks[i], blocks[j]))
  }

  /** The order that allocation keeps, from biggest to smallest; sorting the list for migration gives it up. */
  ghost predicate BiggestFirst(blocks: seq<Block>) {
    forall i, j :: 0 <= i < j < |blocks| ==> blocks[i].length >= blocks[j].length
  }

  /** The unsigned range test is containment. */
  lemma SubTest(b: Block, addr: nat)
    requires BlockOk(b) && addr < WORD
    ensures Sub(addr, b.offset) < b.length <==> Contains(b, addr)
  {
  }

  // ----- Lookup --------------------------------------------------------------

  /** Plain linear search. */
  function Find(blocks: seq<Block>, addr: nat): Option<Block> {
    if blocks == [] then None else if Contains(blocks[0], addr) then Some(blocks[0]) else Find(blocks[1..], addr)
  }

  lemma {:induction false} FindAny(blocks: seq<Block>, addr: nat, i: nat)
    requires BlocksOk(blocks) && i < |blocks| && Contains(blocks[i], addr)
    ensures Find(blocks, addr) == Some(blocks[i])
  {
    if Contains(blocks[0], addr) {
      assert i > 0 ==> Apart(blocks[0], blocks[i]);
    } else {
      FindAny(blocks[1..], addr, i - 1);
    }
  }

  lemma {:induction false} FindFirst(blocks: seq<Block>, addr: nat, i: nat)
    requires i <= |blocks| && (forall j :: 0 <= j < i ==> !Contains(blocks[j], addr))
    requires (i < |blocks| ==> Contains(blocks[i], addr))
    ensures Find(blocks, addr) == if i < |blocks| then Some(blocks[i]) else None
  {
    if i > 0 {
      FindFirst(blocks[1..], addr, i - 1);
    }
  }

  // ----- Gaps ----------------------------------------------------------------

  function Min(a: nat, b: nat): nat { if a < b then a else b }

  /** The first block start at or after e. */
  function NextStart(blocks: seq<Block>, e: nat): nat {
    if blocks == [] then RAM_ADDR_MAX
    else
      var last := blocks[|blocks| - 1];
      var n := NextStart(blocks[..|blocks| - 1], e);
      if last.offset >= e then Min(n, last.offset) else n
  }

  lemma {:induction false} NextStartBounds(blocks: seq<Block>, e: nat)
    requires e <= RAM_ADDR_MAX
    ensures e <= NextStart(blocks, e) <= RAM_ADDR_MAX
    ensures forall i :: 0 <= i < |blocks| && blocks[i].offset >= e ==> NextStart(blocks, e) <= blocks[i].offset
  {
    if blocks != [] {
      NextStartBounds(blocks[..|blocks| - 1], e);
    }
  }

  function EndOf(b: Block): nat { b.offset + b.length }

  function GapAfter(blocks: seq<Block>, b: Block): int { NextStart(blocks, EndOf(b)) - EndOf(b) }

  /** r is the end of a block that is followed by the smallest gap of at least the given size. */
  ghost predicate SmallestGap(blocks: seq<Block>, size: nat, r: nat) {
    exists i :: 0 <= i < |blocks| && r == EndOf(blocks[i]) && FirstSmallest(blocks, size, i)
  }

  /** The gap after the i-th block is large enough, and smaller than all before it and no larger than any. */
  ghost predicate FirstSmallest(blocks: seq<Block>, size: nat, i: nat)
    requires i < |blocks|
  {
    && GapAfter(blocks, blocks[i]) >= size
    && (forall j :: 0 <= j < |blocks| && GapAfter(blocks, blocks[j]) >= size ==>
          GapAfter(blocks, blocks[i]) <= GapAfter(blocks, blocks[j]))
    && (forall j :: 0 <= j < i && GapAfter(blocks, blocks[j]) >= size ==>
          GapAfter(blocks, blocks[i]) < GapAfter(blocks, blocks[j]))
  }

  /** New memory in such a gap overlaps no block. */
  lemma GapIsFree(blocks: seq<Block>, size: nat, r: nat, i: nat)
    requires BlocksOk(blocks) && i < |blocks| && r == EndOf(blocks[i]) && GapAfter(blocks, blocks[i]) >= size
    ensures r + size <= RAM_ADDR_MAX && forall j :: 0 <= j < |blocks| ==>
      EndOf(blocks[j]) <= r || r + size <= blocks[j].offset
  {
    assert BlockOk(blocks[i]);
    NextStartBounds(blocks, r);
    forall j | 0 <= j < |blocks| ensures EndOf(blocks[j]) <= r || r + size <= blocks[j].offset {
      assert j < i ==> Apart(blocks[j], blocks[i]);
      assert i < j ==> Apart(blocks[i], blocks[j]);
      assert BlockOk(blocks[j]);
    }
  }

  // ----- The list ------------------------------------------------------------

  /** Before the first block that is smaller. */
  function Insert(blocks: seq<Block>, b: Block): seq<Block> {
    if blocks == [] || blocks[0].length < b.length then [b] + blocks else [blocks[0]] + Insert(blocks[1..], b)
  }

  lemma {:induction false} InsertMembers(blocks: seq<Block>, b: Block)
    ensures |Insert(blocks, b)| == |blocks| + 1
    ensures forall x :: x in Insert(blocks, b) <==> x in blocks || x == b
  {
    if !(blocks == [] || blocks[0].length < b.length) {
      InsertMembers(blocks[1..], b);
      assert blocks == [blocks[0]] + blocks[1..];
    }
  }

  lemma OkCons(b: Block, blocks: seq<Block>)
    requires BlocksOk(blocks) && BlockOk(b) && forall x :: x in blocks ==> Apart(b, x)
    ensures BlocksOk([b] + blocks)
  {
    var r := [b] + blocks;
    assert forall i :: 0 < i < |r| ==> r[i] == blocks[i - 1] && r[i] in blocks;
  }

  lemma OkTail(blocks: seq<Block>)
    requires BlocksOk(blocks) && blocks != []
    ensures BlocksOk(blocks[1..]) && BlockOk(blocks[0]) && forall x :: x in blocks[1..] ==> Apart(blocks[0], x)
  {
  }

  lemma {:induction false} InsertOk(blocks: seq<Block>, b: Block)
    requires BlocksOk(blocks) && BlockOk(b) && forall x :: x in blocks ==> Apart(b, x)
    ensures BlocksOk(Insert(blocks, b))
  {
    if blocks == [] || blocks[0].length < b.length {
      OkCons(b, blocks);
    } else {
      OkTail(blocks);
      var first, rest := blocks[0], blocks[1..];
      assert first in blocks && Apart(b, first) && forall x :: x in rest ==> x in blocks;
      InsertOk(rest, b);
      InsertMembers(rest, b);
      OkCons(first, Insert(rest, b));
    }
  }

  lemma OrderCons(b: Block, blocks: seq<Block>)
    requires BiggestFirst(blocks) && forall x :: x in blocks ==> b.length >= x.length
    ensures BiggestFirst([b] + blocks)
  {
    var r := [b] + blocks;
    assert forall i :: 0 < i < |r| ==> r[i] == blocks[i - 1] && r[i] in blocks;
  }

  lemma OrderTail(blocks: seq<Block>)
    requires BiggestFirst(blocks) && blocks != []
    ensures BiggestFirst(blocks[1..]) && forall x :: x in blocks ==> blocks[0].length >= x.length
  {
  }

  lemma {:induction false} InsertOrdered(blocks: seq<Block>, b: Block)
    requires BiggestFirst(blocks)
    ensures BiggestFirst(Insert(blocks, b))
  {
    if blocks == [] {
      OrderCons(b, blocks);
    } else {
      OrderTail(blocks);
      if blocks[0].length < b.length {
        OrderCons(b, blocks);
      } else {
        InsertOrdered(blocks[1..], b);
        InsertMembers(blocks[1..], b);
        assert forall x :: x in blocks[1..] ==> x in blocks;
        OrderCons(blocks[0], Insert(blocks[1..], b));
      }
    }
  }

  lemma {:induction false} RemoveOrdered(blocks: seq<Block>, addr: nat)
    requires BiggestFirst(blocks)
    ensures BiggestFirst(Remove(blocks, addr)) && forall x :: x in Remove(blocks, addr) ==> x in blocks
  {
    if blocks != [] {
      OrderTail(blocks);
      assert blocks == [blocks[0]] + blocks[1..];
      if blocks[0].offset != addr {
        RemoveOrdered(blocks[1..], addr);
        OrderCons(blocks[0], Remove(blocks[1..], addr));
      }
    }
  }

  /** The list without the block at the given offset. */
  function Remove(blocks: seq<Block>, addr: nat): seq<Block> {
    if blocks == [] then [] else if blocks[0].offset == addr then blocks[1..]
      else [blocks[0]] + Remove(blocks[1..], addr)
  }

  lemma {:induction false} RemoveOk(blocks: seq<Block>, addr: nat)
    requires BlocksOk(blocks)
    ensures BlocksOk(Remove(blocks, addr))
    ensures forall x :: x in Remove(blocks, addr) <==> x in blocks && x.offset != addr
  {
    if blocks != [] {
      OkTail(blocks);
      assert blocks == [blocks[0]] + blocks[1..];
      if blocks[0].offset == addr {
        assert forall x :: x in blocks[1..] ==> x.offset != addr;
      } else {
        RemoveOk(blocks[1..], addr);
        OkCons(blocks[0], Remove(blocks[1..], addr));
      }
    }
  }

  /** TARGET_PAGE_ALIGN */
  function PageAlign(size: nat): (r: nat)
    ensures size <= r < size + PAGE && r % PAGE == 0
  {
    (size + PAGE - 1) / PAGE * PAGE
  }

  // ----- Host addresses ------------------------------------------------------

  predicate InHost(b: Block, host: int) { b.host != 0 && b.host <= host < b.host + b.length }

  /** Mapped blocks have disjoint host ranges. */
  ghost predicate HostsApart(blocks: seq<Block>) {
    forall i, j, h :: 0 <= i < j < |blocks| && InHost(blocks[i], h) ==> !InHost(blocks[j], h)
  }

  function FindHost(blocks: seq<Block>, host: nat): Option<Block> {
    if blocks == [] then None else if InHost(blocks[0], host) then Some(blocks[0]) else FindHost(blocks[1..], host)
  }

  lemma {:induction false} FindHostAny(blocks: seq<Block>, host: nat, i: nat)
    requires HostsApart(blocks) && i < |blocks| && InHost(blocks[i], host)
    ensures FindHost(blocks, host) == Some(blocks[i])
  {
    if !InHost(blocks[0], host) {
      assert HostsApart(blocks[1..]) by {
        forall a, b, h | 0 <= a < b < |blocks[1..]| && InHost(blocks[1..][a], h) ensures !InHost(blocks[1..][b], h) {
          assert InHost(blocks[a + 1], h);
        }
      }
      FindHostAny(blocks[1..], host, i - 1);
    }
  }

  lemma {:induction false} FindHostFirst(blocks: seq<Block>, host: nat, i: nat)
    requires i <= |blocks| && (forall j :: 0 <= j < i ==> !InHost(blocks[j], host))
    requires (i < |blocks| ==> InHost(blocks[i], host))
    ensures FindHost(blocks, host) == if i < |blocks| then Some(blocks[i]) else None
  {
    if i > 0 {
      FindHostFirst(blocks[1..], host, i - 1);
    }
  }

  lemma HostTest(b: Block, host: nat)
    requires BlockOk(b) && host < WORD
    ensures b.host != 0 && Sub(host, b.host) < b.length <==> InHost(b, host)
  {
  }

  /** qemu_get_ram_ptr on the list: the host address that backs a ram address. */
  function PtrOf(blocks: seq<Block>, addr: nat): Option<int> {
    match Find(blocks, addr)
    case None => None
    case Some(b) => Some(b.host + (addr - b.offset))
  }

  function AddrOf(blocks: seq<Block>, host: nat): Option<int> {
    match FindHost(blocks, host)
    case None => None
    case Some(b) => Some(b.offset + (host - b.host))
  }

  /** The block that holds the address, if any, gives the pointer. */
  lemma PtrMeaning(blocks: seq<Block>, addr: nat)
    requires BlocksOk(blocks)
    ensures forall b :: b in blocks && b.offset <= addr < b.offset + b.length ==>
      PtrOf(blocks, addr) == Some(b.host + (addr - b.offset))
    ensures (forall b :: b in blocks ==> !(b.offset <= addr < b.offset + b.length)) ==> PtrOf(blocks, addr) == None
  {
    forall b | b in blocks && Contains(b, addr) ensures PtrOf(blocks, addr) == Some(b.host + (addr - b.offset)) {
      var i :| 0 <= i < |blocks| && blocks[i] == b;
      FindAny(blocks, addr, i);
    }
    if forall b :: b in blocks ==> !Contains(b, addr) {
      FindFirst(blocks, addr, |blocks|);
    }
  }

  /** The same for host addresses; a block that is not mapped has none. */
  lemma AddrMeaning(blocks: seq<Block>, host: nat)
    requires HostsApart(blocks)
    ensures forall b :: b in blocks && b.host != 0 && b.host <= host < b.host + b.length ==>
      AddrOf(blocks, host) == Some(b.offset + (host - b.host))
    ensures (forall b :: b in blocks ==> !(b.host != 0 && b.host <= host < b.host + b.length)) ==>
      AddrOf(blocks, host) == None
  {
    forall b | b in blocks && InHost(b, host) ensures AddrOf(blocks, host) == Some(b.offset + (host - b.host)) {
      var i :| 0 <= i < |blocks| && blocks[i] == b;
      FindHostAny(blocks, host, i);
    }
    if forall b :: b in blocks ==> !InHost(b, host) {
      FindHostFirst(blocks, host, |blocks|);
    }
  }

  /** b was put at position i: behind the blocks that are at least as long, before a shorter one. */
  ghost predicate InsertedAt(a: seq<Block>, r: seq<Block>, b: Block, i: nat) {
    && i <= |a| && r == a[..i] + [b] + a[i..] && (forall j :: 0 <= j < i ==> a[j].length >= b.length)
    && (i < |a| ==> a[i].length < b.length)
  }

  lemma {:induction false} FindIs(blocks: seq<Block>, addr: nat)
    ensures Find(blocks, addr).Some? ==>
      exists i :: 0 <= i < |blocks| && blocks[i] == Find(blocks, addr).value && Contains(blocks[i], addr)
  {
    if blocks != [] && !Contains(blocks[0], addr) {
      FindIs(blocks[1..], addr);
      if Find(blocks[1..], addr).Some? {
        var i :| 0 <= i < |blocks[1..]| && blocks[1..][i] == Find(blocks, addr).value && Contains(blocks[1..][i], addr);
        assert blocks[i + 1] == blocks[1..][i];
      }
    }
  }

  /** Translating a mapped ram address to its host address and back gives the ram address. */
  lemma HostRoundTrip(blocks: seq<Block>, addr: nat)
    requires HostsApart(blocks) && Find(blocks, addr).Some? && Find(blocks, addr).value.host != 0
    ensures PtrOf(blocks, addr).Some? && PtrOf(blocks, addr).value >= 0
    ensures AddrOf(blocks, PtrOf(blocks, addr).value) == Some(addr)
  {
    FindIs(blocks, addr);
    var i :| 0 <= i < |blocks| && blocks[i] == Find(blocks, addr).value && Contains(blocks[i], addr);
    FindHostAny(blocks, PtrOf(blocks, addr).value, i);
  }

  class RamList {
    var blocks: seq<Block>
    var mru: Option<Block>

    ghost predicate Valid()
      reads this
    {
      BlocksOk(blocks) && (mru.Some? ==> mru.value in blocks)
    }

    constructor ()
      ensures Valid() && BiggestFirst(blocks) && blocks == []
    {
      blocks, mru := [], None;
    }

    /** qemu_get_ram_block: through the most recently used block, the same as a linear search; None where it aborts. */
    method GetRamBlock(addr: nat) returns (r: Option<Block>)
      requires Valid() && addr < WORD
      modifies this`mru
      ensures Valid() && r == Find(blocks, addr) && (r.Some? ==> mru == r) && (r == None ==> mru == old(mru))
    {
      if mru.Some? {
        ghost var k :| 0 <= k < |blocks| && blocks[k] == mru.value;
        SubTest(mru.value, addr);
        if Sub(addr, mru.value.offset) < mru.value.length {
          FindAny(blocks, addr, k);
          return mru;
        }
      }
      r := Linear(addr);
      if r.Some? {
        FindIs(blocks, addr);
        mru := r;
      }
    }

    /** The scan of the list. */
    method Linear(addr: nat) returns (r: Option<Block>)
      requires BlocksOk(blocks) && addr < WORD
      ensures r == Find(blocks, addr)
    {
      var i := 0;
      while i < |blocks|
        invariant 0 <= i <= |blocks| && forall j :: 0 <= j < i ==> !Contains(blocks[j], addr)
      {
        SubTest(blocks[i], addr);
        if Sub(addr, blocks[i].offset) < blocks[i].length {
          FindFirst(blocks, addr, i);
          return Some(blocks[i]);
        }
        i := i + 1;
      }
      FindFirst(blocks, addr, i);
      r := None;
    }

    /** qemu_get_ram_ptr */
    method GetRamPtr(addr: nat) returns (r: Option<int>)
      requires Valid() && addr < WORD
      modifies this`mru
      ensures Valid() && r == PtrOf(blocks, addr)
      ensures forall b :: b in blocks && b.offset <= addr < b.offset + b.length ==>
        r == Some(b.host + (addr - b.offset))
      ensures (forall b :: b in blocks ==> !(b.offset <= addr < b.offset + b.length)) ==> r == None
    {
      PtrMeaning(blocks, addr);
      var b := GetRamBlock(addr);
      r := if b.Some? then Some(b.value.host + (addr - b.value.offset)) else None;
    }

    /** qemu_safe_ram_ptr */
    method SafeRamPtr(addr: nat) returns (r: Option<int>)
      requires Valid() && addr < WORD
      ensures r == PtrOf(blocks, addr)
      ensures forall b :: b in blocks && b.offset <= addr < b.offset + b.length ==>
        r == Some(b.host + (addr - b.offset))
      ensures (forall b :: b in blocks ==> !(b.offset <= addr < b.offset + b.length)) ==> r == None
    {
      PtrMeaning(blocks, addr);
      var b := Linear(addr);
      r := if b.Some? then Some(b.value.host + (addr - b.value.offset)) else None;
    }

    /** qemu_ram_addr_from_host */
    method AddrFromHost(host: nat) returns (r: Option<int>)
      requires Valid() && HostsApart(blocks) && host < WORD
      ensures r == AddrOf(blocks, host)
      ensures forall b :: b in blocks && b.host != 0 && b.host <= host < b.host + b.length ==>
        r == Some(b.offset + (host - b.host))
      ensures (forall b :: b in blocks ==> !(b.host != 0 && b.host <= host < b.host + b.length)) ==> r == None
    {
      AddrMeaning(blocks, host);
      if mru.Some? {
        ghost var k :| 0 <= k < |blocks| && blocks[k] == mru.value;
        HostTest(mru.value, host);
        if mru.value.host != 0 && Sub(host, mru.value.host) < mru.value.length {
          FindHostAny(blocks, host, k);
          return Some(mru.value.offset + (host - mru.value.host));
        }
      }
      var i := 0;
      while i < |blocks|
        invariant 0 <= i <= |blocks| && forall j :: 0 <= j < i ==> !InHost(blocks[j], host)
      {
        HostTest(blocks[i], host);
        if blocks[i].host != 0 && Sub(host, blocks[i].host) < blocks[i].length {
          FindHostFirst(blocks, host, i);
          return Some(blocks[i].offset + (host - blocks[i].host));
        }
        i := i + 1;
      }
      FindHostFirst(blocks, host, i);
      r := None;
    }

    /** find_ram_offset; None where it aborts. */
    method FindRamOffset(size: nat) returns (r: Option<nat>)
      requires Valid() && size > 0
      ensures blocks == [] ==> r == Some(0)
      ensures blocks != [] && r.Some? ==> SmallestGap(blocks, size, r.value)
      ensures blocks != [] && r == None ==> forall i :: 0 <= i < |blocks| ==> GapAfter(blocks, blocks[i]) < size
    {
      if blocks == [] {
        return Some(0);
      }
      var offset: nat, mingap := RAM_ADDR_MAX, RAM_ADDR_MAX;
      ghost var best := -1;
      var i := 0;
      while i < |blocks|
        invariant 0 <= i <= |blocks| && BestSoFar(blocks, size, i, best, offset, mingap)
      {
        BestStep(blocks, size, i, best, offset, mingap);
        var end := blocks[i].offset + blocks[i].length;
        var next := NextAfter(end);
        if next - end >= size && next - end < mingap {
          offset := end;
          mingap := next - end;
          best := i;
        }
        i := i + 1;
      }
      if offset == RAM_ADDR_MAX {
        return None;
      }
      r := Some(offset);
    }

    /** The inner loop of find_ram_offset. */
    method NextAfter(end: nat) returns (next: nat)
      ensures next == NextStart(blocks, end)
    {
      next := RAM_ADDR_MAX;
      var i := 0;
      while i < |blocks|
        invariant 0 <= i <= |blocks| && next == NextStart(blocks[..i], end)
      {
        assert blocks[..i + 1][..i] == blocks[..i];
        if blocks[i].offset >= end {
          next := Min(next, blocks[i].offset);
        }
        i := i + 1;
      }
      assert blocks[..i] == blocks;
    }

    /** qemu_ram_alloc_from_ptr; None where it aborts. */
    method Alloc(size: nat, host: nat) returns (r: Option<nat>)
      requires Valid() && host + PageAlign(size) < WORD
      modifies this
      ensures Valid() && (old(BiggestFirst(blocks)) ==> BiggestFirst(blocks)) && (r == None ==> blocks == old(blocks))
      ensures r == None ==>
        size == 0 || (blocks != [] && forall i :: 0 <= i < |blocks| ==> GapAfter(blocks, blocks[i]) < PageAlign(size))
      ensures r.Some? ==>
        size > 0 && blocks == Insert(old(blocks), Block(r.value, PageAlign(size), host)) && mru == None
      ensures r.Some? ==> if old(blocks) == [] then r.value == 0 else SmallestGap(old(blocks), PageAlign(size), r.value)
      ensures r.Some? ==> exists i :: InsertedAt(old(blocks), blocks, Block(r.value, PageAlign(size), host), i)
    {
      var length := PageAlign(size);
      if length == 0 {
        return None;
      }
      r := FindRamOffset(length);
      if r == None {
        return;
      }
      var b := Block(r.value, length, host);
      NewBlockOk(blocks, length, r.value, host);
      InsertOk(blocks, b);
      if BiggestFirst(blocks) {
        InsertOrdered(blocks, b);
      }
      var rest := InsertSorted(b);
      blocks := rest;
      mru := None;
    }

    /** The position for the new block is searched from the front. */
    method InsertSorted(b: Block) returns (r: seq<Block>)
      ensures r == Insert(blocks, b) && exists i :: InsertedAt(blocks, r, b, i)
    {
      var i := 0;
      assert blocks[0..] == blocks && [] + Insert(blocks, b) == Insert(blocks, b);
      while i < |blocks| && blocks[i].length >= b.length
        invariant 0 <= i <= |blocks| && blocks[..i] + Insert(blocks[i..], b) == Insert(blocks, b)
        invariant forall j :: 0 <= j < i ==> blocks[j].length >= b.length
      {
        assert blocks[i..][0] == blocks[i] && blocks[i..][1..] == blocks[i + 1..];
        assert blocks[..i] + ([blocks[i]] + Insert(blocks[i + 1..], b)) == blocks[..i + 1] + Insert(blocks[i + 1..], b);
        i := i + 1;
      }
      r := blocks[..i] + [b] + blocks[i..];
      assert r == blocks[..i] + ([b] + blocks[i..]);
      assert InsertedAt(blocks, r, b, i);
    }

    /** qemu_ram_free */
    method Free(addr: nat)
      requires Valid()
      modifies this
      ensures Valid() && blocks == Remove(old(blocks), addr) && (old(BiggestFirst(blocks)) ==> BiggestFirst(blocks))
      ensures forall x :: x in blocks <==> x in old(blocks) && x.offset != addr
    {
      RemoveOk(blocks, addr);
      if BiggestFirst(blocks) {
        RemoveOrdered(blocks, addr);
      }
      var i := FindOffset(addr);
      RemoveAt(blocks, addr, i);
      if i < |blocks| {
        blocks := blocks[..i] + blocks[i + 1..];
        mru := None;
      }
    }

    /** The search of qemu_ram_free. */
    method FindOffset(addr: nat) returns (i: nat)
      ensures i <= |blocks| && (forall j :: 0 <= j < i ==> blocks[j].offset != addr)
      ensures (i < |blocks| ==> blocks[i].offset == addr)
    {
      i := 0;
      while i < |blocks| && blocks[i].offset != addr
        invariant 0 <= i <= |blocks| && forall j :: 0 <= j < i ==> blocks[j].offset != addr
      {
        i := i + 1;
      }
    }
  }

  lemma {:induction false} RemoveAt(blocks: seq<Block>, addr: nat, i: nat)
    requires i <= |blocks| && (forall j :: 0 <= j < i ==> blocks[j].offset != addr)
    requires (i < |blocks| ==> blocks[i].offset == addr)
    ensures Remove(blocks, addr) == if i < |blocks| then blocks[..i] + blocks[i + 1..] else blocks
  {
    if i == 0 {
      assert blocks != [] ==> blocks[..0] + blocks[1..] == blocks[1..];
    } else {
      RemoveAt(blocks[1..], addr, i - 1);
      assert i < |blocks| ==> [blocks[0]] + (blocks[1..][..i - 1] + blocks[1..][i..]) == blocks[..i] + blocks[i + 1..];
      assert [blocks[0]] + blocks[1..] == blocks;
    }
  }

  /** The search for the smallest gap after i blocks: best is the block before it, or -1. */
  ghost predicate BestSoFar(blocks: seq<Block>, size: nat, i: nat, best: int, offset: nat, mingap: int) {
    && i <= |blocks| && -1 <= best < i
    && (if best == -1 then
          offset == RAM_ADDR_MAX && mingap == RAM_ADDR_MAX && forall j :: 0 <= j < i ==>
            GapAfter(blocks, blocks[j]) < size
        else
          && offset == EndOf(blocks[best]) && offset < RAM_ADDR_MAX && mingap == GapAfter(blocks, blocks[best]) &&
            mingap >= size
          && (forall j :: 0 <= j < i && GapAfter(blocks, blocks[j]) >= size ==> mingap <= GapAfter(blocks, blocks[j]))
          && (forall j :: 0 <= j < best && GapAfter(blocks, blocks[j]) >= size ==>
                mingap < GapAfter(blocks, blocks[j])))
  }

  lemma BestStep(blocks: seq<Block>, size: nat, i: nat, best: int, offset: nat, mingap: int)
    requires BlocksOk(blocks) && size > 0 && i < |blocks| && BestSoFar(blocks, size, i, best, offset, mingap)
    ensures var gap := GapAfter(blocks, blocks[i]);
      if gap >= size && gap < mingap then BestSoFar(blocks, size, i + 1, i, EndOf(blocks[i]), gap)
      else BestSoFar(blocks, size, i + 1, best, offset, mingap)
  {
    assert BlockOk(blocks[i]);
    NextStartBounds(blocks, EndOf(blocks[i]));
  }

  lemma NewBlockOk(blocks: seq<Block>, size: nat, r: nat, host: nat)
    requires BlocksOk(blocks) && size > 0 && size % PAGE == 0 && host + size < WORD
    requires if blocks == [] then r == 0 && size <= RAM_ADDR_MAX else SmallestGap(blocks, size, r)
    ensures BlockOk(Block(r, size, host)) && forall x :: x in blocks ==> Apart(Block(r, size, host), x)
  {
    if blocks != [] {
      var i :| 0 <= i < |blocks| && r == EndOf(blocks[i]) && GapAfter(blocks, blocks[i]) >= size;
      GapIsFree(blocks, size, r, i);
      assert BlockOk(blocks[i]);
      AlignedEnd(blocks[i]);
    }
  }

  lemma AlignedEnd(b: Block)
    requires b.offset % PAGE == 0 && b.length % PAGE == 0
    ensures EndOf(b) % PAGE == 0
  {
  }
}
