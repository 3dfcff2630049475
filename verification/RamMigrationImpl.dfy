/** The sender and loader of arch_init.c as they run, refining RamMigration's state machine. */
module RamMigrationImpl {
  import opened Bytes
  import opened Collections
  import opened RamMigration
  import opened RamMigrationProof

  lemma WordEq(a: u8, b: u8, c: u8, d: u8, ch: u8)
    ensures Word(a, b, c, d) == Word(ch, ch, ch, ch) <==> a == b == c == d == ch
  {
    if Word(a, b, c, d) == Word(ch, ch, ch, ch) {
      DigitsZero((a as int) - (ch as int), (b as int) - (ch as int), (c as int) - (ch as int),
        (d as int) - (ch as int));
    }
  }

  lemma DigitZero(d: int, r: int)
    requires -256 < d < 256 && d + 0x100 * r == 0
    ensures d == 0 && r == 0
  {
  }

  lemma DigitsZero(d0: int, d1: int, d2: int, d3: int)
    requires -256 < d0 < 256 && -256 < d1 < 256 && -256 < d2 < 256
    requires d0 + 0x100 * d1 + 0x1_0000 * d2 + 0x100_0000 * d3 == 0
    ensures d0 == d1 == d2 == d3 == 0
  {
    DigitZero(d0, d1 + 0x100 * d2 + 0x1_0000 * d3);
    DigitZero(d1, d2 + 0x100 * d3);
    DigitZero(d2, d3);
  }

  function Word(a: u8, b: u8, c: u8, d: u8): nat {
    (a as int) + 0x100 * (b as int) + 0x1_0000 * (c as int) + 0x100_0000 * (d as int)
  }

  /** is_dup_page: a word-wise scan that decides a byte-wise property. */
  method IsDupPage(page: Page, ch: u8) returns (dup: bool)
    ensures dup <==> IsDup(page, ch)
  {
    for i := 0 to PAGE / 4
      invariant forall j :: 0 <= j < 4 * i ==> page[j] == ch
    {
      WordEq(page[4 * i], page[4 * i + 1], page[4 * i + 2], page[4 * i + 3], ch);
      if Word(page[4 * i], page[4 * i + 1], page[4 * i + 2], page[4 * i + 3]) != Word(ch, ch, ch, ch) {
        return false;
      }
    }
    return true;
  }

  /** Pages in list order. */
  predicate Earlier(a: Pick, b: Pick) {
    a.block < b.block || (a.block == b.block && a.page < b.page)
  }

  /** q lies on the round-robin walk from `start` up to, not including, `stop`. */
  predicate OnWalk(start: Pick, q: Pick, stop: Pick) {
    if Earlier(stop, start) then !Earlier(q, start) || Earlier(q, stop)
    else !Earlier(q, start) && Earlier(q, stop)
  }

  function NextPage(blocks: seq<RamBlock>, k: Pick): Pick
    requires InRange(blocks, k)
  {
    if k.page + 1 < |blocks[k.block].host| then Pick(k.block, k.page + 1)
    else if k.block + 1 < |blocks| then Pick(k.block + 1, 0)
    else Pick(0, 0)
  }

  /** One step of the walk covers exactly one more page; a full turn covers all. */
  lemma WalkCovers(blocks: seq<RamBlock>, dirty: set<nat>, start: Pick, k: Pick)
    requires InRange(blocks, start) && InRange(blocks, k) && Addr(blocks, k) !in dirty
    requires forall q :: InRange(blocks, q) && OnWalk(start, q, k) ==> Addr(blocks, q) !in dirty
    ensures var k' := NextPage(blocks, k);
      forall q :: InRange(blocks, q) && (k' == start || OnWalk(start, q, k')) ==> Addr(blocks, q) !in dirty
  {
    var k' := NextPage(blocks, k);
    forall q | InRange(blocks, q) && (k' == start || OnWalk(start, q, k'))
      ensures Addr(blocks, q) !in dirty
    {
      assert q == k || OnWalk(start, q, k);
    }
  }

  /** All bytes of the page are the same. */
  ghost predicate Constant(page: Page) { forall i :: 0 <= i < |page| ==> page[i] == page[0] }

  /**
    The bytes of one page on the stream: a word with the page's offset and flags, the name of the
    block unless it is that of the page before, and the page, or its first byte alone if all of
    its bytes are the same.
   */
  ghost function PageBytes(b: RamBlock, p: nat, cont: bool): seq<u8>
    requires p < |b.host| && |b.idstr| <= 255
  {
    var page := b.host[p];
    Be64(p * 4096 + (if cont then 0x20 else 0) + (if Constant(page) then 0x02 else 0x08)) +
    ((if cont then [] else [|b.idstr|] + b.idstr) + (if Constant(page) then [page[0]] else page))
  }

  lemma Parts(b: seq<u8>, c: seq<u8>, d: seq<u8>, s: seq<u8>)
    requires s == b + (c + d)
    ensures |s| == |b| + |c| + |d| && s[..|b|] == b && s[|b|..|b| + |c|] == c && s[|b| + |c|..] == d
  {
  }

  lemma NameAt(s: seq<u8>, id: seq<u8>)
    requires 9 + |id| <= |s| && |id| <= 255 && s[8..9 + |id|] == [|id|] + id
    ensures s[8] == |id| && s[9..9 + |id|] == id
  {
    assert s[8..9 + |id|][1..] == s[9..9 + |id|];
    assert s[8] == s[8..9 + |id|][0];
  }

  /** What can be read off these bytes. */
  lemma PageBytesMeaning(b: RamBlock, p: nat, cont: bool)
    requires p < |b.host| && |b.idstr| <= 255 && p * 4096 < TWO64 - PAGE
    ensures var s, page, n := PageBytes(b, p, cont), b.host[p], if cont then 8 else 9 + |b.idstr|;
      && |s| == n + (if Constant(page) then 1 else 4096)
      && FromBe(s[..8]) == p * 4096 + (if cont then 0x20 else 0) + (if Constant(page) then 0x02 else 0x08)
      && (!cont ==> s[8] == |b.idstr| && s[9..n] == b.idstr)
      && s[n..] == if Constant(page) then [page[0]] else page
  {
    var s, page := PageBytes(b, p, cont), b.host[p];
    var word := p * 4096 + (if cont then 0x20 else 0) + (if Constant(page) then 0x02 else 0x08);
    var name := if cont then [] else [|b.idstr|] + b.idstr;
    Be64RoundTrip(word);
    Parts(Be64(word), name, if Constant(page) then [page[0]] else page, s);
    if !cont {
      NameAt(s, b.idstr);
    }
  }

  /** The encoding of a page's record is that. */
  lemma EncodedPage(s: Source, k: Pick)
    requires InRange(s.blocks, k) && RecordOk(RecordOf(s, k))
    ensures Encode(RecordOf(s, k)) == PageBytes(s.blocks[k.block], k.page, s.last == Some(k.block))
    ensures RecordOf(s, k).body.Dup? <==> Constant(s.blocks[k.block].host[k.page])
  {
  }

  class RamSender {
    var blocks: seq<RamBlock>
    var dirty: set<nat>
    var lastBlock: Option<nat>
    var lastOffset: nat
    var out: seq<u8>

    function State(): Source
      reads this
    {
      Source(blocks, dirty, lastBlock, lastOffset)
    }

    /** Before the first page of a migration is sent everything is dirty. */
    ghost predicate Started()
      reads this
    {
      SourceOk(State()) && (lastBlock.None? ==> AllPages(blocks) <= dirty)
    }

    constructor (blocks: seq<RamBlock>, dirty: set<nat>)
      requires blocks != [] && ListOk(blocks)
      ensures State() == Source(blocks, dirty, None, 0) && out == [] && SourceOk(State())
    {
      this.blocks, this.dirty, lastBlock, lastOffset, out := blocks, dirty, None, 0, [];
    }

    /** A guest store that replaces one page's contents. */
    method GuestStore(k: Pick, page: Page)
      requires InRange(blocks, k)
      modifies this`blocks, this`dirty
      ensures State() == Step(old(State()), GuestWrite(k, page))
      ensures old(Started()) ==> Started()
      ensures |blocks| == |old(blocks)| && dirty == old(dirty) + {blocks[k.block].offset + k.page * 4096}
      ensures forall q :: InRange(blocks, q) <==> InRange(old(blocks), q)
      ensures forall q :: InRange(blocks, q) ==>
        blocks[q.block].host[q.page] == if q == k then page else old(blocks)[q.block].host[q.page]
    {
      StoreKeepsStarted(blocks, dirty, k, page);
      dirty := dirty + {Addr(blocks, k)};
      blocks := WritePage(blocks, k, page);
    }

    /** The record bytes of one page, as ram_save_block puts them. */
    method PutPage(b: nat, offset: nat, cont: bool, ghost k: Pick) returns (bytesSent: nat)
      requires ListOk(blocks) && k.block == b && offset == k.page * PAGE && InRange(blocks, k)
      requires cont <==> lastBlock == Some(b)
      requires RecordOk(RecordOf(State(), k))
      modifies this`out
      ensures out == old(out) + Encode(RecordOf(State(), k))
      ensures bytesSent == if RecordOf(State(), k).body.Dup? then 1 else PAGE
    {
      assert k.page == offset / PAGE;
      var p := blocks[b].host[offset / PAGE];
      ghost var r := RecordOf(State(), k);
      var dup := IsDupPage(p, p[0]);
      var word := offset + (if cont then FLAG_CONTINUE else 0) + (if dup then FLAG_COMPRESS else FLAG_PAGE);
      out := out + Be64(word);
      if !cont {
        out := out + NameBytes(blocks[b].idstr);
      }
      assert out == old(out) + (Be64(word) + NamePart(r));
      if dup {
        out := out + [p[0]];
        bytesSent := 1;
      } else {
        out := out + p;
        bytesSent := PAGE;
      }
      assert out == old(out) + (Be64(word) + (NamePart(r) + BodyBytes(r.body)));
    }

    /** Where the walk starts: the last page sent, or the first page of the list. */
    function WalkStart(): Pick
      reads this
    {
      Pick(if lastBlock.Some? then lastBlock.value else 0, lastOffset / PAGE)
    }

    /**
      The do-while scan of ram_save_block: the first dirty page on the round-robin walk that
      starts at the last page sent.  The loop test dereferences last_block, which is only
      NULL while the very first page is still dirty.
     */
    method NextDirty() returns (found: bool, b: nat, offset: nat, ghost k: Pick)
      requires Started()
      ensures k.block == b && offset == k.page * PAGE && InRange(blocks, k)
      ensures found ==> Addr(blocks, k) in dirty
      ensures found ==> forall q :: InRange(blocks, q) && OnWalk(WalkStart(), q, k) ==> Addr(blocks, q) !in dirty
      ensures !found ==> NoneDirty(State()) && lastBlock == Some(b) && lastOffset == offset
    {
      b := if lastBlock.Some? then lastBlock.value else 0;
      offset := lastOffset;
      ghost var start := WalkStart();
      k := start;
      WalkStartOk();
      while true
        invariant k.block == b && offset == k.page * PAGE && InRange(blocks, k)
        invariant k != start ==> lastBlock.Some?
        invariant forall q :: InRange(blocks, q) && OnWalk(start, q, k) ==> Addr(blocks, q) !in dirty
        decreases if Earlier(k, start) then 0 else 1, |blocks| - k.block, |blocks[k.block].host| - k.page
      {
        if blocks[b].offset + offset in dirty {
          return true, b, offset, k;
        }
        assert BlockOk(blocks[b]);
        offset := offset + PAGE;
        if offset >= blocks[b].length {
          offset := 0;
          b := b + 1;
          if b == |blocks| {
            b := 0;
          }
        }
        assert BlockOk(blocks[b]);
        WalkCovers(blocks, dirty, start, k);
        k := NextPage(blocks, k);
        if blocks[b].offset + offset == blocks[lastBlock.value].offset + lastOffset {
          AddrInjective(blocks, k, start);
          return false, b, offset, k;
        }
      }
    }

    lemma WalkStartOk()
      requires Started()
      ensures InRange(blocks, WalkStart()) && WalkStart().page * PAGE == lastOffset
      ensures lastBlock.None? ==> Addr(blocks, WalkStart()) in dirty
    {
      assert BlockOk(blocks[WalkStart().block]);
      assert Addr(blocks, WalkStart()) in AllPages(blocks);
    }

    lemma PageRecordOk(k: Pick)
      requires ListOk(blocks) && InRange(blocks, k)
      ensures RecordOk(RecordOf(State(), k)) && k.page * PAGE / PAGE == k.page
    {
      assert BlockOk(blocks[k.block]);
      LengthBound(blocks, k.block);
    }

    /** The part of ram_save_block that sends the page found. */
    method SendFound(b: nat, offset: nat, ghost k: Pick) returns (bytesSent: nat)
      requires ListOk(blocks) && k.block == b && offset == k.page * PAGE && InRange(blocks, k)
      modifies this`dirty, this`out
      ensures RecordOk(RecordOf(old(State()), k)) && out == old(out) + Encode(RecordOf(old(State()), k))
      ensures bytesSent == if RecordOf(old(State()), k).body.Dup? then 1 else PAGE
      ensures |blocks[b].idstr| <= 255 && out == old(out) + PageBytes(blocks[b], k.page, lastBlock == Some(b))
      ensures bytesSent == if Constant(blocks[b].host[k.page]) then 1 else 4096
      ensures dirty == old(dirty) - {blocks[k.block].offset + k.page * 4096}
    {
      PageRecordOk(k);
      EncodedPage(State(), k);
      dirty := dirty - {blocks[b].offset + offset};
      bytesSent := PutPage(b, offset, lastBlock == Some(b), k);
    }

    /** ram_save_block: sends the next dirty page, or nothing exactly when no page is dirty. */
    method RamSaveBlock() returns (bytesSent: nat, ghost k: Pick)
      requires Started()
      modifies this`dirty, this`lastBlock, this`lastOffset, this`out
      ensures Started() && InRange(blocks, k) && blocks == old(blocks)
      ensures if bytesSent == 0 then State() == old(State()) && out == old(out) && NoneDirty(State())
              else
                && CanSend(old(State()), k) && RecordOk(RecordOf(old(State()), k))
                && State() == SendPage(old(State()), k)
                && out == old(out) + Encode(RecordOf(old(State()), k))
                && bytesSent == if RecordOf(old(State()), k).body.Dup? then 1 else PAGE
      ensures bytesSent > 0 ==>
        && out == old(out) + PageBytes(blocks[k.block], k.page, old(lastBlock) == Some(k.block))
        && bytesSent == if Constant(blocks[k.block].host[k.page]) then 1 else 4096
      ensures lastBlock == Some(k.block) && lastOffset == k.page * 4096
      ensures bytesSent > 0 ==>
                forall q :: InRange(blocks, q) && OnWalk(old(WalkStart()), q, k) ==> Addr(blocks, q) !in old(dirty)
    {
      var found, b, offset;
      found, b, offset, k := NextDirty();
      if found {
        bytesSent := SendFound(b, offset, k);
      } else {
        bytesSent := 0;
      }
      lastBlock := Some(b);
      lastOffset := offset;
      assert BlockOk(blocks[b]);
    }

    /** The stage-1 loops that set every migration dirty bit. */
    method MarkAllDirty()
      requires ListOk(blocks)
      modifies this`dirty
      ensures dirty == old(dirty) + AllPages(blocks)
    {
      for i := 0 to |blocks|
        invariant dirty == old(dirty) + AllPages(blocks[..i])
      {
        assert BlockOk(blocks[i]);
        var addr := blocks[i].offset;
        ghost var p := 0;
        while addr < blocks[i].offset + blocks[i].length
          invariant p <= |blocks[i].host| && addr == PageAddr(blocks[i], p)
          invariant dirty == old(dirty) + AllPages(blocks[..i]) + FirstPages(blocks[i], p)
        {
          if addr !in dirty {
            dirty := dirty + {addr};
          }
          addr := addr + PAGE;
          p := p + 1;
        }
        AllPagesSnoc(blocks, i);
      }
      assert blocks[..|blocks|] == blocks;
    }

    /** The stage-1 header: total size and the table of named blocks. */
    method PutHeader()
      requires ListOk(blocks)
      modifies this`out
      ensures out == old(out) + Header(blocks)
    {
      out := out + Be64(Total(blocks) + FLAG_MEM_SIZE);
      ghost var base := out;
      for i := 0 to |blocks|
        invariant out + Table(blocks[i..]) == base + Table(blocks)
      {
        assert BlockOk(blocks[i]);
        TableStep(out, blocks, i);
        out := out + NameBytes(blocks[i].idstr);
        out := out + Be64(blocks[i].length);
      }
      assert out + [] == out;
    }

    /** The stage-1 prologue of ram_save_live. */
    method BeginMigration()
      requires SourceOk(State())
      modifies this
      ensures State() == Restart(old(State())) && Started()
      ensures out == old(out) + Header(blocks)
    {
      SortProperties(blocks);
      lastBlock := None;
      lastOffset := 0;
      blocks := SortByOffset(blocks);
      MarkAllDirty();
      PutHeader();
    }

    /** Since `s` the pages `ks` have been sent, after the bytes `base`. */
    ghost predicate Sent(s: Source, ks: seq<Pick>, base: seq<u8>)
      reads this
    {
      && Started() && ListOk(s.blocks) && CanSendAll(s, ks)
      && State() == SendAll(s, ks) && out == base + EncodeAll(Records(s, ks))
    }

    method SendOne(ghost s: Source, ghost ks: seq<Pick>, ghost base: seq<u8>) returns (more: bool, ghost ks': seq<Pick>)
      requires Sent(s, ks, base)
      modifies this`dirty, this`lastBlock, this`lastOffset, this`out
      ensures Sent(s, ks', base)
      ensures more ==> |ks'| == |ks| + 1 && dirty < old(dirty)
      ensures !more ==> ks' == ks && NoneDirty(State())
    {
      var bytesSent;
      ghost var k;
      bytesSent, k := RamSaveBlock();
      more := bytesSent != 0;
      ks' := ks;
      if more {
        SendSnoc(s, ks, k, base);
        ks' := ks + [k];
      }
    }

    /**
      ram_save_live: one section of the stream.  `budget` is how many pages the rate limiter
      lets through; stage 3 then flushes every remaining dirty page.
     */
    method RamSaveLive(stage: nat, budget: nat) returns (ghost ks: seq<Pick>)
      requires 1 <= stage <= 3
      requires if stage == 1 then SourceOk(State()) else Started()
      modifies this
      ensures Started()
      ensures EventOk(old(State()), SaveLive(stage, ks))
      ensures State() == Step(old(State()), SaveLive(stage, ks))
      ensures out == old(out) + Emit(old(State()), SaveLive(stage, ks))
      ensures stage < 3 ==> |ks| <= budget && (|ks| < budget ==> NoneDirty(State()))
    {
      ghost var s1 := Begin(State(), stage);
      if stage == 1 {
        BeginMigration();
      }
      ghost var base := out;
      ks := [];
      assert out == base + EncodeAll([]);
      var left, more := budget, true;
      while left > 0 && more
        invariant Sent(s1, ks, base)
        invariant |ks| + left + (if more then 0 else 1) == budget
        invariant !more ==> NoneDirty(State())
      {
        more, ks := SendOne(s1, ks, base);
        left := left - 1;
      }
      if stage == 3 {
        more := true;
        while more
          invariant Sent(s1, ks, base)
          invariant !more ==> NoneDirty(State())
          decreases more, dirty
        {
          more, ks := SendOne(s1, ks, base);
        }
      }
      out := out + Be64(FLAG_EOS);
      EmitIs(old(State()), old(out), stage, ks, base, out);
    }

    /**
      ram_save_live with its other exits: a negative stage only ends dirty tracking, and a failed
      sync of the dirty bitmap sets an error on the file.  `soon` is the estimate that the rest
      can be sent within the allowed downtime; only stage 2 reports it.
     */
    method RamSave(stage: int, synced: bool, budget: nat, soon: bool)
      returns (ret: int, failed: bool, ghost ks: seq<Pick>)
      requires stage < 0 || 1 <= stage <= 3
      requires stage == 1 ==> SourceOk(State())
      requires stage > 1 ==> Started()
      modifies this
      ensures failed <==> stage >= 0 && !synced
      ensures stage < 0 || failed ==> ret == 0 && State() == old(State()) && out == old(out)
      ensures stage > 0 && !failed ==>
        && Started() && EventOk(old(State()), SaveLive(stage, ks))
        && State() == Step(old(State()), SaveLive(stage, ks))
        && out == old(out) + Emit(old(State()), SaveLive(stage, ks))
        && ret == if stage == 2 && soon then 1 else 0
    {
      ks := [];
      if stage < 0 {
        return 0, false, [];
      }
      if !synced {
        return 0, true, [];
      }
      ks := RamSaveLive(stage, budget);
      ret, failed := if stage == 2 && soon then 1 else 0, false;
    }
  }

  /** A guest store changes the contents of a page and nothing else about the blocks. */
  lemma StoreKeepsStarted(blocks: seq<RamBlock>, dirty: set<nat>, k: Pick, page: Page)
    requires InRange(blocks, k)
    ensures var r := WritePage(blocks, k, page);
      && |r| == |blocks| && (forall i :: 0 <= i < |r| ==> r[i].length == blocks[i].length)
      && (ListOk(blocks) ==> ListOk(r)) && AllPages(r) == AllPages(blocks)
  {
    var r := WritePage(blocks, k, page);
    if ListOk(blocks) {
      WritePageOk(blocks, k, page);
    }
    forall a | a in AllPages(blocks) ensures a in AllPages(r) {
      var i: nat, p: nat :| i < |blocks| && p < |blocks[i].host| && PageAddr(blocks[i], p) == a;
      assert i < |r| && p < |r[i].host| && PageAddr(r[i], p) == a;
    }
    forall a | a in AllPages(r) ensures a in AllPages(blocks) {
      var i: nat, p: nat :| i < |r| && p < |r[i].host| && PageAddr(r[i], p) == a;
      assert i < |blocks| && p < |blocks[i].host| && PageAddr(blocks[i], p) == a;
    }
  }

  lemma EmitIs(s: Source, out0: seq<u8>, stage: nat, ks: seq<Pick>, base: seq<u8>, out: seq<u8>)
    requires ListOk(s.blocks) && EventOk(s, SaveLive(stage, ks))
    requires ListOk(Begin(s, stage).blocks)
    requires base == if stage == 1 then out0 + Header(Begin(s, stage).blocks) else out0
    requires out == base + EncodeAll(Records(Begin(s, stage), ks)) + Be64(FLAG_EOS)
    ensures out == out0 + Emit(s, SaveLive(stage, ks))
  {
  }

  /** The stream begins with the size of all RAM and flag 0x04. */
  lemma HeaderWord(blocks: seq<RamBlock>)
    requires ListOk(blocks)
    ensures FromBe(Header(blocks)[..8]) == Total(blocks) + 0x04
  {
    Be64RoundTrip(Total(blocks) + FLAG_MEM_SIZE);
    assert Header(blocks)[..8] == Be64(Total(blocks) + FLAG_MEM_SIZE);
  }

  lemma SendSnoc(s: Source, ks: seq<Pick>, k: Pick, base: seq<u8>)
    requires ListOk(s.blocks) && CanSendAll(s, ks) && CanSend(SendAll(s, ks), k)
    ensures CanSendAll(s, ks + [k]) && SendAll(s, ks + [k]) == SendPage(SendAll(s, ks), k)
    ensures RecordOk(RecordOf(SendAll(s, ks), k))
    ensures base + EncodeAll(Records(s, ks + [k]))
         == base + EncodeAll(Records(s, ks)) + Encode(RecordOf(SendAll(s, ks), k))
  {
    assert Front(ks + [k]) == ks;
    var rs := Records(s, ks + [k]);
    assert Front(rs) == Records(s, ks);
    assert RecordOk(Last(rs));
  }

  /** Return value of ram_load. */
  datatype Status = Again(rest: Input) | Done(rest: Input) | Einval | Eio | BadStore

  class RamLoader {
    var blocks: seq<RamBlock>
    var cur: Option<nat>  // the static block of host_from_stream_offset

    function State(): Dest
      reads this
    {
      Dest(blocks, cur)
    }

    constructor (blocks: seq<RamBlock>)
      requires DestOk(Dest(blocks, None))
      ensures State() == Dest(blocks, None)
    {
      this.blocks, cur := blocks, None;
    }

    method FindBlock(id: seq<u8>) returns (b: Option<nat>)
      ensures b == Find(blocks, id)
    {
      var i := 0;
      while i < |blocks|
        invariant i <= |blocks| && FindFrom(blocks, id, i) == Find(blocks, id)
      {
        if blocks[i].idstr == id {
          return Some(i);
        }
        i := i + 1;
      }
      return None;
    }

    /** The block-table loop: does every named block exist here with that length? */
    method CheckTable(total: nat, start: Input) returns (ok: bool, inp: Input)
      requires DestOk(State()) && total < TWO64
      ensures SyncTable(State(), total, start) == if ok then Some(inp) else None
    {
      var left: nat := total;
      inp := start;
      while left != 0
        invariant left < TWO64 && SyncTable(State(), left, inp) == SyncTable(State(), total, start)
        decreases |inp.data|, left
      {
        var (id, inp1) := GetName(inp);
        var (length, inp2) := GetBe64(inp1);
        var b := FindBlock(id);
        if b.None? || blocks[b.value].length != length {
          return false, inp;
        }
        left := Sub64(left, length);
        inp := inp2;
      }
      return true, inp;
    }

    /** host_from_stream_offset */
    method HostFromStreamOffset(flags: Flags, start: Input) returns (inp: Input)
      requires DestOk(State())
      modifies this`cur
      ensures HostBlock(old(State()), flags, start) == (State(), inp)
      ensures DestOk(State())
    {
      if flags.cont {
        return start;
      }
      var (id, inp1) := GetName(start);
      cur := FindBlock(id);
      return inp1;
    }

    method StoreBytes(addr: nat, bytes: seq<u8>) returns (ok: bool)
      requires DestOk(State()) && |bytes| <= PAGE
      modifies this`blocks
      ensures Store(old(State()), addr, bytes) == if ok then Some(State()) else None
      ensures ok ==> DestOk(State())
    {
      if bytes == [] {
        return true;
      }
      if cur.None? || addr / PAGE >= |blocks[cur.value].host| {
        return false;
      }
      var b := blocks[cur.value];
      var page: Page := bytes + b.host[addr / PAGE][|bytes|..];
      blocks := blocks[cur.value := b.(host := b.host[addr / PAGE := page])];
      return true;
    }

    ghost predicate Reports(status: Status, outcome: Outcome)
      reads this
    {
      match outcome
      case More(d, inp) => status == Again(inp) && State() == d
      case Loaded(d, inp) => status == Done(inp) && State() == d
      case Invalid(d) => status == Einval && State() == d
      case Broken(d) => status == Eio && State() == d
      case Crashed => status == BadStore
    }

    /** The loop body after the flag word. */
    method LoadBody(flags: Flags, addr: nat, start: Input) returns (status: Status)
      requires DestOk(State()) && addr < TWO64
      modifies this
      ensures Reports(status, Dispatch(old(State()), flags, addr, start))
    {
      var inp, ok := start, true;
      if flags.memSize {
        ok, inp := CheckTable(addr, inp);
        if !ok {
          return Einval;
        }
      } else if flags.compress {
        inp := HostFromStreamOffset(flags, inp);
        if cur.None? {
          return Einval;
        }
        var (ch, inp1) := GetByte(inp);
        inp := inp1;
        ok := StoreBytes(addr, seq(PAGE, _ => ch));
      } else if flags.page {
        inp := HostFromStreamOffset(flags, inp);
        var (bytes, inp1) := GetBuffer(inp, PAGE);
        inp := inp1;
        ok := StoreBytes(addr, bytes);
      }
      if !ok {
        return BadStore;
      }
      return if inp.err then Eio else if flags.eos then Done(inp) else Again(inp);
    }

    method LoadOne(start: Input) returns (status: Status)
      requires DestOk(State()) && !start.err
      modifies this
      ensures Reports(status, Iterate(old(State()), start))
    {
      var (word, inp) := GetBe64(start);
      var flags, addr := DecodeFlags(word % PAGE), word - word % PAGE;
      assert Iterate(State(), start) == Dispatch(State(), flags, addr, inp);
      status := LoadBody(flags, addr, inp);
    }

    /** ram_load, version 3 */
    method RamLoad(start: Input) returns (status: Status)
      requires DestOk(State()) && !start.err
      modifies this
      ensures Reports(status, Load(old(State()), start))
    {
      status := Again(start);
      while status.Again?
        invariant if status.Again? then
                    && DestOk(State()) && !status.rest.err
                    && Load(State(), status.rest) == Load(old(State()), start)
                  else Reports(status, Load(old(State()), start))
        decreases status.Again?, if status.Again? then |status.rest.data| else 0
      {
        ghost var d, inp := State(), status.rest;
        status := LoadOne(status.rest);
        LoadMore(d, inp, Iterate(d, inp));
      }
    }
  }

  lemma TableStep(out: seq<u8>, blocks: seq<RamBlock>, i: nat)
    requires i < |blocks| && forall j :: 0 <= j < |blocks| ==> BlockOk(blocks[j])
    ensures BlockOk(blocks[i])
    ensures out + Table(blocks[i..])
         == (out + NameBytes(blocks[i].idstr) + Be64(blocks[i].length)) + Table(blocks[i + 1..])
  {
    assert BlockOk(blocks[i]) && blocks[i..][1..] == blocks[i + 1..];
    Assoc3(out, NameBytes(blocks[i].idstr), Be64(blocks[i].length), Table(blocks[i + 1..]));
  }

  lemma Assoc3(a: seq<u8>, b: seq<u8>, c: seq<u8>, d: seq<u8>)
    ensures a + (b + (c + d)) == (a + b + c) + d
  {
  }

  function FirstPages(b: RamBlock, n: nat): set<nat> {
    set p: nat | p < n :: PageAddr(b, p)
  }

  lemma AllPagesSnoc(blocks: seq<RamBlock>, i: nat)
    requires i < |blocks|
    ensures AllPages(blocks[..i + 1]) == AllPages(blocks[..i]) + FirstPages(blocks[i], |blocks[i].host|)
  {
    var xs, ys := blocks[..i], blocks[..i + 1];
    forall a | a in AllPages(ys) ensures a in AllPages(xs) + FirstPages(blocks[i], |blocks[i].host|) {
      var j: nat, p: nat :| j < |ys| && p < |ys[j].host| && PageAddr(ys[j], p) == a;
      if j < i {
        assert PageAddr(xs[j], p) == a;
      }
    }
    forall a | a in AllPages(xs) ensures a in AllPages(ys) {
      var j: nat, p: nat :| j < |xs| && p < |xs[j].host| && PageAddr(xs[j], p) == a;
      assert PageAddr(ys[j], p) == a;
    }
    forall a | a in FirstPages(blocks[i], |blocks[i].host|) ensures a in AllPages(ys) {
      var p: nat :| p < |blocks[i].host| && PageAddr(blocks[i], p) == a;
      assert PageAddr(ys[i], p) == a;
    }
  }
}
