/** Theorems about the live-migration protocol: decoding, then whole runs. */
module RamMigrationProof {
  import opened Bytes
  import opened Collections
  import opened RamMigration

  // ----- Decoding what the sender encodes ------------------------------------

  lemma Assoc(a: seq<u8>, b: seq<u8>, c: seq<u8>, d: seq<u8>)
    ensures a + (b + c) + d == a + (b + (c + d))
  {
  }

  lemma GetBufferAppend(s: seq<u8>, rest: seq<u8>)
    ensures GetBuffer(Input(s + rest, false), |s|) == (s, Input(rest, false))
  {
    assert (s + rest)[..|s|] == s && (s + rest)[|s|..] == rest;
  }

  lemma GetBe64Append(v: nat, rest: seq<u8>)
    requires v < TWO64
    ensures GetBe64(Input(Be64(v) + rest, false)) == (v, Input(rest, false))
  {
    GetBufferAppend(Be64(v), rest);
    assert Pad(Be64(v), 8) == Be64(v);
    Be64RoundTrip(v);
  }

  lemma GetByteAppend(c: u8, rest: seq<u8>)
    ensures GetByte(Input([c] + rest, false)) == (c, Input(rest, false))
  {
    GetBufferAppend([c], rest);
  }

  lemma {:induction false} CStringId(id: seq<u8>)
    requires 0 !in id
    ensures CString(id) == id
  {
    if id != [] {
      CStringId(id[1..]);
    }
  }

  lemma GetNameAppend(id: seq<u8>, rest: seq<u8>)
    requires |id| <= 255 && 0 !in id
    ensures GetName(Input(NameBytes(id) + rest, false)) == (id, Input(rest, false))
  {
    assert NameBytes(id) + rest == [|id|] + (id + rest);
    GetByteAppend(|id|, id + rest);
    GetBufferAppend(id, rest);
    CStringId(id);
  }

  function PageOf(body: Body): Page {
    match body
    case Dup(ch) => seq(PAGE, _ => ch)
    case Full(page) => page
  }

  function Target(d: Dest, r: Record): Option<nat> {
    if r.cont then d.cur else Find(d.blocks, r.idstr)
  }

  predicate CanApply(d: Dest, r: Record)
    requires DestOk(d)
  {
    var t := Target(d, r);
    t.Some? && r.offset / PAGE < |d.blocks[t.value].host|
  }

  /** What a page record means: the named (or current) block's page becomes the sent page. */
  function Apply(d: Dest, r: Record): (d': Dest)
    requires DestOk(d) && CanApply(d, r)
    ensures DestOk(d')
  {
    var t := Target(d, r).value;
    var b := d.blocks[t];
    Dest(d.blocks[t := b.(host := b.host[r.offset / PAGE := PageOf(r.body)])], Some(t))
  }

  lemma StoreWholePage(d: Dest, addr: nat, page: Page)
    requires DestOk(d) && d.cur.Some? && addr / PAGE < |d.blocks[d.cur.value].host|
    ensures var b := d.blocks[d.cur.value];
            Store(d, addr, page) ==
            Some(d.(blocks := d.blocks[d.cur.value := b.(host := b.host[addr / PAGE := page])]))
  {
    var prior := d.blocks[d.cur.value].host[addr / PAGE];
    assert page + prior[|page|..] == page;
  }

  /** Name bytes as HostBlock consumes them. */
  lemma HostBlockAppend(d: Dest, r: Record, rest: seq<u8>)
    requires DestOk(d) && RecordOk(r)
    ensures HostBlock(d, Flags(r.body.Dup?, false, r.body.Full?, false, r.cont), Input(NamePart(r) + rest, false))
         == (d.(cur := Target(d, r)), Input(rest, false))
  {
    if r.cont {
      assert [] + rest == rest;
    } else {
      GetNameAppend(r.idstr, rest);
    }
  }

  lemma IterateWord(d: Dest, data: seq<u8>, word: nat, rest: seq<u8>, flags: Flags, addr: nat)
    requires DestOk(d) && word < TWO64 && data == Be64(word) + rest
    requires flags == DecodeFlags(word % PAGE) && addr == word - word % PAGE
    ensures Iterate(d, Input(data, false)) == Dispatch(d, flags, addr, Input(rest, false))
  {
    GetBe64Append(word, rest);
  }

  lemma SplitWord(offset: nat, flags: nat)
    requires offset % PAGE == 0 && flags < PAGE
    ensures (offset + flags) % PAGE == flags
  {
  }

  lemma RecordFlagsDecode(r: Record)
    ensures DecodeFlags(RecordFlags(r)) == Flags(r.body.Dup?, false, r.body.Full?, false, r.cont)
  {
    assert Bits(0x02, 6) == [false, true, false, false, false, false];
    assert Bits(0x08, 6) == [false, false, false, true, false, false];
    assert Bits(0x22, 6) == [false, true, false, false, false, true];
    assert Bits(0x28, 6) == [false, false, false, true, false, true];
  }

  lemma DispatchRecord(d: Dest, r: Record, rest: seq<u8>)
    requires DestOk(d) && RecordOk(r) && CanApply(d, r)
    ensures Dispatch(d, Flags(r.body.Dup?, false, r.body.Full?, false, r.cont), r.offset,
                     Input(NamePart(r) + (BodyBytes(r.body) + rest), false))
         == More(Apply(d, r), Input(rest, false))
  {
    HostBlockAppend(d, r, BodyBytes(r.body) + rest);
    StoreWholePage(d.(cur := Target(d, r)), r.offset, PageOf(r.body));
    match r.body
    case Dup(ch) => GetByteAppend(ch, rest);
    case Full(page) => GetBufferAppend(page, rest);
  }

  lemma RecordWord(r: Record)
    requires RecordOk(r)
    ensures var word := r.offset + RecordFlags(r);
      && word < TWO64 && word - word % PAGE == r.offset
      && DecodeFlags(word % PAGE) == Flags(r.body.Dup?, false, r.body.Full?, false, r.cont)
  {
    SplitWord(r.offset, RecordFlags(r));
    RecordFlagsDecode(r);
  }

  lemma IterateRecord(d: Dest, r: Record, rest: seq<u8>)
    requires DestOk(d) && RecordOk(r) && CanApply(d, r)
    ensures Iterate(d, Input(Encode(r) + rest, false)) == More(Apply(d, r), Input(rest, false))
  {
    var word := r.offset + RecordFlags(r);
    var tail := NamePart(r) + (BodyBytes(r.body) + rest);
    var flags := Flags(r.body.Dup?, false, r.body.Full?, false, r.cont);
    assert Encode(r) + rest == Be64(word) + tail by {
      Assoc(Be64(word), NamePart(r), BodyBytes(r.body), rest);
    }
    assert Iterate(d, Input(Encode(r) + rest, false)) == Dispatch(d, flags, r.offset, Input(tail, false)) by {
      RecordWord(r);
      IterateWord(d, Encode(r) + rest, word, tail, flags, r.offset);
    }
    DispatchRecord(d, r, rest);
  }

  lemma LoadMore(d: Dest, inp: Input, r: Outcome)
    requires DestOk(d) && !inp.err && Iterate(d, inp) == r
    ensures Load(d, inp) == if r.More? then Load(r.d, r.inp) else r
  {
  }

  /** One loop iteration of ram_load on one encoded record. */
  lemma LoadRecord(d: Dest, r: Record, rest: seq<u8>)
    requires DestOk(d) && RecordOk(r) && CanApply(d, r)
    ensures Load(d, Input(Encode(r) + rest, false)) == Load(Apply(d, r), Input(rest, false))
  {
    IterateRecord(d, r, rest);
    LoadMore(d, Input(Encode(r) + rest, false), More(Apply(d, r), Input(rest, false)));
  }

  lemma LoadEos(d: Dest, rest: seq<u8>)
    requires DestOk(d)
    ensures Load(d, Input(Be64(FLAG_EOS) + rest, false)) == Loaded(d, Input(rest, false))
  {
    assert Bits(0x10, 6) == [false, false, false, false, true, false];
    IterateWord(d, Be64(FLAG_EOS) + rest, FLAG_EOS, rest, Flags(false, false, false, true, false), 0);
  }

  /** The destination offers every source block under the same name and size. */
  ghost predicate Compatible(blocks: seq<RamBlock>, d: Dest) {
    forall i :: 0 <= i < |blocks| ==> Offers(blocks[i], d)
  }

  predicate Offers(b: RamBlock, d: Dest) {
    var t := Find(d.blocks, b.idstr);
    t.Some? && d.blocks[t.value].length == b.length
  }

  lemma SyncTableStep(d: Dest, b: RamBlock, total: nat, tail: seq<u8>)
    requires DestOk(d) && BlockOk(b) && b.length <= total < TWO64
    ensures SyncTable(d, total, Input(NameBytes(b.idstr) + (Be64(b.length) + tail), false))
         == if Offers(b, d) then SyncTable(d, total - b.length, Input(tail, false)) else None
  {
    GetNameAppend(b.idstr, Be64(b.length) + tail);
    GetBe64Append(b.length, tail);
  }

  /** The table check accepts exactly the compatible destinations. */
  lemma {:induction false} SyncTableAppend(d: Dest, blocks: seq<RamBlock>, rest: seq<u8>)
    requires DestOk(d) && forall i :: 0 <= i < |blocks| ==> BlockOk(blocks[i])
    requires Total(blocks) < TWO64
    ensures SyncTable(d, Total(blocks), Input(Table(blocks) + rest, false))
         == if Compatible(blocks, d) then Some(Input(rest, false)) else None
  {
    if blocks == [] {
      assert [] + rest == rest;
    } else {
      SyncTableCons(d, blocks, rest);
      SyncTableAppend(d, blocks[1..], rest);
      CompatibleCons(blocks, d);
    }
  }

  lemma SyncTableCons(d: Dest, blocks: seq<RamBlock>, rest: seq<u8>)
    requires blocks != [] && DestOk(d) && forall i :: 0 <= i < |blocks| ==> BlockOk(blocks[i])
    requires Total(blocks) < TWO64
    ensures SyncTable(d, Total(blocks), Input(Table(blocks) + rest, false))
         == if Offers(blocks[0], d) then SyncTable(d, Total(blocks[1..]), Input(Table(blocks[1..]) + rest, false))
           else None
  {
    TableCons(blocks, rest);
    SyncTableStep(d, blocks[0], Total(blocks), Table(blocks[1..]) + rest);
  }

  lemma TableCons(blocks: seq<RamBlock>, rest: seq<u8>)
    requires blocks != [] && forall i :: 0 <= i < |blocks| ==> BlockOk(blocks[i])
    ensures BlockOk(blocks[0])
    ensures Table(blocks) + rest
         == NameBytes(blocks[0].idstr) + (Be64(blocks[0].length) + (Table(blocks[1..]) + rest))
  {
    assert BlockOk(blocks[0]);
    Assoc(NameBytes(blocks[0].idstr), Be64(blocks[0].length), Table(blocks[1..]), rest);
  }

  lemma CompatibleCons(blocks: seq<RamBlock>, d: Dest)
    requires blocks != []
    ensures Compatible(blocks, d) <==> Offers(blocks[0], d) && Compatible(blocks[1..], d)
  {
    assert blocks == [blocks[0]] + blocks[1..];
  }

  lemma {:induction false} TotalAligned(blocks: seq<RamBlock>)
    requires forall i :: 0 <= i < |blocks| ==> BlockOk(blocks[i])
    ensures Total(blocks) % PAGE == 0
  {
    if blocks != [] {
      assert BlockOk(blocks[0]);
      TotalAligned(blocks[1..]);
    }
  }

  /** A stage-1 header is accepted iff the destination is compatible; rejection touches nothing. */
  lemma LoadHeader(d: Dest, blocks: seq<RamBlock>, rest: seq<u8>)
    requires DestOk(d) && ListOk(blocks)
    ensures Load(d, Input(Header(blocks) + rest, false))
         == if Compatible(blocks, d) then Load(d, Input(rest, false)) else Invalid(d)
  {
    var word, tail := Total(blocks) + FLAG_MEM_SIZE, Table(blocks) + rest;
    assert Header(blocks) + rest == Be64(word) + tail;
    assert word % PAGE == FLAG_MEM_SIZE by {
      TotalAligned(blocks);
      SplitWord(Total(blocks), FLAG_MEM_SIZE);
    }
    assert Bits(0x04, 6) == [false, false, true, false, false, false];
    IterateWord(d, Header(blocks) + rest, word, tail, Flags(false, true, false, false, false), Total(blocks));
    SyncTableAppend(d, blocks, rest);
  }

  // ----- The replica invariant -----------------------------------------------

  /** The destination's copy of page p of source block b. */
  function Copy(b: RamBlock, d: Dest, p: nat): Page
    requires DestOk(d) && Offers(b, d) && BlockOk(b) && p < |b.host|
  {
    d.blocks[Find(d.blocks, b.idstr).value].host[p]
  }

  /** Every page is dirty or already equal to its replayed copy. */
  ghost predicate Mirrors(blocks: seq<RamBlock>, dirty: set<nat>, d: Dest)
    requires BlocksOk(blocks) && DestOk(d) && Compatible(blocks, d)
  {
    forall k :: InRange(blocks, k) ==>
      Addr(blocks, k) in dirty || Copy(blocks[k.block], d, k.page) == blocks[k.block].host[k.page]
  }

  /** CONTINUE names the block of the last page sent. */
  ghost predicate CursorAgrees(s: Source, d: Dest) {
    s.last.Some? ==> s.last.value < |s.blocks| && d.cur == Find(d.blocks, s.blocks[s.last.value].idstr)
  }

  ghost predicate Synced(s: Source, d: Dest) {
    && ListOk(s.blocks) && DestOk(d) && Compatible(s.blocks, d)
    && Mirrors(s.blocks, s.dirty, d) && CursorAgrees(s, d)
  }

  ghost function Names(blocks: seq<RamBlock>): set<seq<u8>> {
    set b | b in blocks :: b.idstr
  }

  /** Destination blocks keep their headers, and their contents unless named in `names`. */
  ghost predicate Untouched(names: set<seq<u8>>, d0: Dest, d: Dest) {
    && |d.blocks| == |d0.blocks|
    && (forall j :: 0 <= j < |d.blocks| ==>
          d.blocks[j].idstr == d0.blocks[j].idstr && d.blocks[j].length == d0.blocks[j].length)
    && (forall j :: 0 <= j < |d.blocks| && d0.blocks[j].idstr !in names ==> d.blocks[j] == d0.blocks[j])
  }

  lemma AddrInjective(blocks: seq<RamBlock>, k: Pick, k': Pick)
    requires BlocksOk(blocks) && InRange(blocks, k) && InRange(blocks, k')
    requires Addr(blocks, k) == Addr(blocks, k')
    ensures k == k'
  {
    assert BlockOk(blocks[k.block]) && BlockOk(blocks[k'.block]);
    assert k.block < k'.block ==> Apart(blocks[k.block], blocks[k'.block]);
    assert k'.block < k.block ==> Apart(blocks[k'.block], blocks[k.block]);
  }

  /** Lookup depends on names only. */
  lemma FindSame(xs: seq<RamBlock>, ys: seq<RamBlock>, id: seq<u8>)
    requires |xs| == |ys| && forall i :: 0 <= i < |xs| ==> xs[i].idstr == ys[i].idstr
    ensures Find(xs, id) == Find(ys, id)
  {
  }

  lemma RecordApplies(s: Source, d: Dest, k: Pick)
    requires Synced(s, d) && InRange(s.blocks, k)
    ensures CanApply(d, RecordOf(s, k))
    ensures Target(d, RecordOf(s, k)) == Find(d.blocks, s.blocks[k.block].idstr)
    ensures PageOf(RecordOf(s, k).body) == s.blocks[k.block].host[k.page]
  {
    var b := s.blocks[k.block];
    assert BlockOk(b) && Offers(b, d);
    assert k.page * PAGE / PAGE == k.page;
  }

  lemma ApplyFrame(d: Dest, r: Record)
    requires DestOk(d) && CanApply(d, r)
    ensures var d' := Apply(d, r);
      && |d'.blocks| == |d.blocks|
      && (forall j :: 0 <= j < |d.blocks| ==>
            d'.blocks[j].idstr == d.blocks[j].idstr && d'.blocks[j].length == d.blocks[j].length)
      && (forall id :: Find(d'.blocks, id) == Find(d.blocks, id))
  {
    forall id ensures Find(Apply(d, r).blocks, id) == Find(d.blocks, id) {
      FindSame(Apply(d, r).blocks, d.blocks, id);
    }
  }

  lemma CompatibleFrame(blocks: seq<RamBlock>, d: Dest, d': Dest)
    requires Compatible(blocks, d) && |d'.blocks| == |d.blocks|
    requires forall j :: 0 <= j < |d.blocks| ==> d'.blocks[j].length == d.blocks[j].length
    requires forall id :: Find(d'.blocks, id) == Find(d.blocks, id)
    ensures Compatible(blocks, d')
  {
    forall i | 0 <= i < |blocks| ensures Offers(blocks[i], d') {
      assert Offers(blocks[i], d);
    }
  }

  /** Replaying the record of a page cleans it: the invariant survives one send. */
  lemma SendKeepsSync(s: Source, d: Dest, k: Pick)
    requires Synced(s, d) && InRange(s.blocks, k)
    ensures CanApply(d, RecordOf(s, k))
    ensures Synced(SendPage(s, k), Apply(d, RecordOf(s, k)))
  {
    RecordApplies(s, d, k);
    var r := RecordOf(s, k);
    var d', s' := Apply(d, r), SendPage(s, k);
    ApplyFrame(d, r);
    CompatibleFrame(s.blocks, d, d');
    forall q | InRange(s.blocks, q)
      ensures Addr(s.blocks, q) in s'.dirty || Copy(s.blocks[q.block], d', q.page) == s.blocks[q.block].host[q.page]
    {
      SendOther(s, d, k, q);
    }
  }

  lemma SendOther(s: Source, d: Dest, k: Pick, q: Pick)
    requires Synced(s, d) && InRange(s.blocks, k) && InRange(s.blocks, q)
    requires CanApply(d, RecordOf(s, k))
    requires DestOk(Apply(d, RecordOf(s, k))) && Offers(s.blocks[q.block], Apply(d, RecordOf(s, k)))
    requires BlockOk(s.blocks[q.block])
    ensures || Addr(s.blocks, q) in SendPage(s, k).dirty
            || Copy(s.blocks[q.block], Apply(d, RecordOf(s, k)), q.page) == s.blocks[q.block].host[q.page]
  {
    RecordApplies(s, d, k);
    ApplyFrame(d, RecordOf(s, k));
    assert k.page * PAGE / PAGE == k.page;
    assert Offers(s.blocks[k.block], d) && Offers(s.blocks[q.block], d);
    if q != k {
      if Addr(s.blocks, q) == Addr(s.blocks, k) {
        AddrInjective(s.blocks, k, q);
      }
      if q.block < k.block {
        assert Apart(s.blocks[q.block], s.blocks[k.block]);
      } else if k.block < q.block {
        assert Apart(s.blocks[k.block], s.blocks[q.block]);
      }
    }
  }

  /** ... so it survives a batch of sends, and the loader reads the batch back. */
  lemma {:induction false} LoadPages(s: Source, d: Dest, ks: seq<Pick>, rest: seq<u8>) returns (d': Dest)
    requires Synced(s, d) && CanSendAll(s, ks)
    ensures Synced(SendAll(s, ks), d') && Untouched(Names(s.blocks), d, d')
    ensures Load(d, Input(EncodeAll(Records(s, ks)) + rest, false)) == Load(d', Input(rest, false))
  {
    if ks == [] {
      d' := d;
      assert [] + rest == rest;
    } else {
      var m, k := SendAll(s, Front(ks)), Last(ks);
      var init := Records(s, Front(ks));
      var d1 := LoadPages(s, d, Front(ks), Encode(RecordOf(m, k)) + rest);
      SendKeepsSync(m, d1, k);
      d' := Apply(d1, RecordOf(m, k));
      LoadRecord(d1, RecordOf(m, k), rest);
      ApplyUntouched(m, d, d1, k);
      EncodeAllSnoc(init, RecordOf(m, k), rest);
    }
  }

  lemma EncodeAllSnoc(rs: seq<Record>, r: Record, rest: seq<u8>)
    requires RecordOk(r) && forall i :: 0 <= i < |rs| ==> RecordOk(rs[i])
    ensures EncodeAll(rs + [r]) + rest == EncodeAll(rs) + (Encode(r) + rest)
  {
    assert Front(rs + [r]) == rs;
  }

  lemma ApplyUntouched(s: Source, d0: Dest, d: Dest, k: Pick)
    requires Synced(s, d) && InRange(s.blocks, k) && Untouched(Names(s.blocks), d0, d) && CanApply(d, RecordOf(s, k))
    ensures Untouched(Names(s.blocks), d0, Apply(d, RecordOf(s, k)))
  {
    RecordApplies(s, d, k);
    ApplyFrame(d, RecordOf(s, k));
    assert s.blocks[k.block] in s.blocks;
  }

  // ----- Sections ------------------------------------------------------------

  lemma RestartSynced(s: Source, d: Dest)
    requires ListOk(s.blocks) && DestOk(d) && Compatible(s.blocks, d)
    ensures Synced(Restart(s), d) && Names(Restart(s).blocks) == Names(s.blocks)
  {
    SortProperties(s.blocks);
    var blocks := SortByOffset(s.blocks);
    forall i | 0 <= i < |blocks| ensures Offers(blocks[i], d) {
      assert blocks[i] in s.blocks;
    }
    forall k | InRange(blocks, k) ensures Addr(blocks, k) in AllPages(blocks) {
      assert PageAddr(blocks[k.block], k.page) in AllPages(blocks);
    }
  }

  /** One ram_save_live section, loaded by one ram_load call. */
  lemma LoadSection(s: Source, d: Dest, e: Event, rest: seq<u8>) returns (d': Dest)
    requires e.SaveLive? && EventOk(s, e) && ListOk(s.blocks) && DestOk(d) && Compatible(s.blocks, d)
    requires e.stage == 1 || Synced(s, d)
    ensures Synced(Step(s, e), d') && Untouched(Names(s.blocks), d, d')
    ensures Load(d, Input(Emit(s, e) + rest, false)) == Loaded(d', Input(rest, false))
  {
    var s1 := Begin(s, e.stage);
    if e.stage == 1 {
      RestartSynced(s, d);
    }
    var eos := Be64(FLAG_EOS) + rest;
    d' := LoadPages(s1, d, e.ks, eos);
    LoadEos(d', rest);
    var pages := EncodeAll(Records(s1, e.ks));
    if e.stage == 1 {
      Assoc(Header(s1.blocks), pages, Be64(FLAG_EOS), rest);
      LoadHeader(d, s1.blocks, pages + eos);
    } else {
      Assoc([], pages, Be64(FLAG_EOS), rest);
      assert [] + (pages + eos) == pages + eos;
    }
  }

  lemma {:induction false} TotalSame(xs: seq<RamBlock>, ys: seq<RamBlock>)
    requires |xs| == |ys| && forall i :: 0 <= i < |xs| ==> xs[i].length == ys[i].length
    ensures Total(xs) == Total(ys)
  {
    if xs != [] {
      TotalSame(xs[1..], ys[1..]);
    }
  }

  lemma WritePageOk(blocks: seq<RamBlock>, k: Pick, page: Page)
    requires ListOk(blocks) && InRange(blocks, k)
    ensures ListOk(WritePage(blocks, k, page)) && Names(WritePage(blocks, k, page)) == Names(blocks)
  {
    var r := WritePage(blocks, k, page);
    TotalSame(blocks, r);
    forall i | 0 <= i < |r| ensures BlockOk(r[i]) {
      assert BlockOk(blocks[i]);
    }
    forall i, j | 0 <= i < j < |r| ensures Apart(r[i], r[j]) {
      assert Apart(blocks[i], blocks[j]);
    }
    forall x | x in Names(blocks) ensures x in Names(r) {
      var b :| b in blocks && b.idstr == x;
      var i :| 0 <= i < |blocks| && blocks[i] == b;
      assert r[i] in r && r[i].idstr == x;
    }
    forall x | x in Names(r) ensures x in Names(blocks) {
      var b :| b in r && b.idstr == x;
      var i :| 0 <= i < |r| && r[i] == b;
      assert blocks[i] in blocks && blocks[i].idstr == x;
    }
  }

  /** A guest write dirties its page, so the replica invariant survives it. */
  lemma WriteKeepsSync(s: Source, d: Dest, k: Pick, page: Page)
    requires Synced(s, d) && InRange(s.blocks, k)
    ensures Synced(Step(s, GuestWrite(k, page)), d)
  {
    WritePageOk(s.blocks, k, page);
    var r := WritePage(s.blocks, k, page);
    forall i | 0 <= i < |r| ensures Offers(r[i], d) {
      assert Offers(s.blocks[i], d);
    }
    forall q | InRange(r, q)
      ensures Addr(r, q) in s.dirty + {Addr(s.blocks, k)} || Copy(r[q.block], d, q.page) == r[q.block].host[q.page]
    {
      assert InRange(s.blocks, q) && Addr(r, q) == Addr(s.blocks, q);
      assert Offers(s.blocks[q.block], d) && BlockOk(s.blocks[q.block]);
    }
  }

  // ----- Whole runs ----------------------------------------------------------

  ghost predicate RunOk(s: Source, es: seq<Event>)
    decreases |es|
  {
    es == [] || (EventOk(s, es[0]) && RunOk(Step(s, es[0]), es[1..]))
  }

  function RunState(s: Source, es: seq<Event>): Source
    decreases |es|
  {
    if es == [] then s else RunState(Step(s, es[0]), es[1..])
  }

  lemma StepOk(s: Source, e: Event)
    requires ListOk(s.blocks) && EventOk(s, e)
    ensures ListOk(Step(s, e).blocks) && Names(Step(s, e).blocks) == Names(s.blocks)
  {
    match e
    case GuestWrite(k, page) => WritePageOk(s.blocks, k, page);
    case SaveLive(_, _) => SortProperties(s.blocks);
  }

  ghost function RunStream(s: Source, es: seq<Event>): seq<u8>
    requires ListOk(s.blocks) && RunOk(s, es)
    decreases |es|
  {
    if es == [] then []
    else
      StepOk(s, es[0]);
      Emit(s, es[0]) + RunStream(Step(s, es[0]), es[1..])
  }

  function Sections(es: seq<Event>): nat {
    if es == [] then 0 else (if es[0].SaveLive? then 1 else 0) + Sections(es[1..])
  }

  /** One ram_load call per section. */
  function LoadSections(d: Dest, n: nat, data: seq<u8>): Outcome
    requires DestOk(d)
    decreases n
  {
    if n == 0 then Loaded(d, Input(data, false))
    else
      var r := Load(d, Input(data, false));
      if r.Loaded? then LoadSections(r.d, n - 1, r.inp.data) else r
  }

  lemma LoadSectionsStep(d: Dest, n: nat, data: seq<u8>, r: Outcome)
    requires DestOk(d) && n > 0 && Load(d, Input(data, false)) == r
    ensures LoadSections(d, n, data) == if r.Loaded? then LoadSections(r.d, n - 1, r.inp.data) else r
  {
  }

  lemma UntouchedTrans(names: set<seq<u8>>, d0: Dest, d1: Dest, d2: Dest)
    requires Untouched(names, d0, d1) && Untouched(names, d1, d2)
    ensures Untouched(names, d0, d2)
  {
  }

  lemma RunStreamCons(s: Source, es: seq<Event>)
    requires es != [] && RunOk(s, es) && ListOk(s.blocks)
    ensures ListOk(Step(s, es[0]).blocks) && Names(Step(s, es[0]).blocks) == Names(s.blocks)
    ensures RunStream(s, es) == Emit(s, es[0]) + RunStream(Step(s, es[0]), es[1..])
    ensures Sections(es) == Sections(es[1..]) + if es[0].SaveLive? then 1 else 0
  {
    StepOk(s, es[0]);
  }

  lemma RunHeadSave(s: Source, d: Dest, es: seq<Event>) returns (d1: Dest)
    requires es != [] && RunOk(s, es) && ListOk(s.blocks) && DestOk(d) && Compatible(s.blocks, d)
    requires es[0].SaveLive? && (es[0].stage == 1 || Synced(s, d))
    requires ListOk(Step(s, es[0]).blocks)
    ensures Synced(Step(s, es[0]), d1) && Untouched(Names(s.blocks), d, d1)
    ensures LoadSections(d, Sections(es), RunStream(s, es))
         == LoadSections(d1, Sections(es[1..]), RunStream(Step(s, es[0]), es[1..]))
  {
    RunStreamCons(s, es);
    var rest := RunStream(Step(s, es[0]), es[1..]);
    d1 := LoadSection(s, d, es[0], rest);
    LoadSectionsStep(d, Sections(es), RunStream(s, es), Loaded(d1, Input(rest, false)));
  }

  /** The first event of a run, loaded. */
  lemma RunHead(s: Source, d: Dest, es: seq<Event>) returns (d1: Dest)
    requires es != [] && RunOk(s, es) && ListOk(s.blocks) && DestOk(d) && Compatible(s.blocks, d)
    requires (es[0].SaveLive? && es[0].stage == 1) || Synced(s, d)
    ensures ListOk(Step(s, es[0]).blocks) && Names(Step(s, es[0]).blocks) == Names(s.blocks)
    ensures Synced(Step(s, es[0]), d1) && Untouched(Names(s.blocks), d, d1)
    ensures LoadSections(d, Sections(es), RunStream(s, es))
         == LoadSections(d1, Sections(es[1..]), RunStream(Step(s, es[0]), es[1..]))
  {
    StepOk(s, es[0]);
    if es[0].SaveLive? {
      d1 := RunHeadSave(s, d, es);
    } else {
      d1 := d;
      RunStreamCons(s, es);
      WriteKeepsSync(s, d, es[0].k, es[0].page);
      assert RunStream(s, es) == RunStream(Step(s, es[0]), es[1..]);
    }
  }

  /** Along every run the loader keeps up with the sender. */
  lemma {:induction false} RunSynced(s: Source, d: Dest, es: seq<Event>) returns (d': Dest)
    requires Synced(s, d) && RunOk(s, es)
    ensures Synced(RunState(s, es), d') && Untouched(Names(s.blocks), d, d')
    ensures LoadSections(d, Sections(es), RunStream(s, es)) == Loaded(d', Input([], false))
    decreases |es|
  {
    if es == [] {
      d' := d;
    } else {
      var d1 := RunHead(s, d, es);
      d' := RunSynced(Step(s, es[0]), d1, es[1..]);
      UntouchedTrans(Names(s.blocks), d, d1, d');
    }
  }

  lemma {:induction false} RunEndsClean(s: Source, es: seq<Event>)
    requires RunOk(s, es) && es != [] && Last(es).SaveLive? && Last(es).stage == 3
    ensures NoneDirty(RunState(s, es))
    decreases |es|
  {
    if |es| > 1 {
      assert Last(es[1..]) == Last(es);
      RunEndsClean(Step(s, es[0]), es[1..]);
    } else {
      assert es[1..] == [];
    }
  }

  /** Every source block's memory is what the destination now holds under its name. */
  ghost predicate SameRam(blocks: seq<RamBlock>, d: Dest) {
    forall b :: b in blocks ==> Offers(b, d) && d.blocks[Find(d.blocks, b.idstr).value].host == b.host
  }

  lemma CleanIsSame(s: Source, d: Dest)
    requires Synced(s, d) && NoneDirty(s)
    ensures SameRam(s.blocks, d)
  {
    forall b | b in s.blocks
      ensures Offers(b, d) && d.blocks[Find(d.blocks, b.idstr).value].host == b.host
    {
      var i :| 0 <= i < |s.blocks| && s.blocks[i] == b;
      assert Offers(b, d) && BlockOk(b);
      forall p | 0 <= p < |b.host| ensures Copy(b, d, p) == b.host[p] {
        assert InRange(s.blocks, Pick(i, p));
      }
    }
  }

  /**
    The migration theorem.  Take any run that starts with a stage-1 call and ends with a
    stage-3 call, with guest writes and further calls interleaved in any way and each call
    sending as many pages as rate limiting allowed.  Loading the stream into a compatible
    destination ends with destination RAM equal to the final source RAM and other blocks
    untouched; an incompatible destination refuses with -EINVAL before any store.
   */
  lemma MigrationTransfersRam(s: Source, d: Dest, es: seq<Event>)
    requires ListOk(s.blocks) && DestOk(d) && RunOk(s, es)
    requires es != [] && es[0].SaveLive? && es[0].stage == 1 && Last(es).SaveLive? && Last(es).stage == 3
    ensures var r := LoadSections(d, Sections(es), RunStream(s, es));
      if Compatible(s.blocks, d) then
        && r.Loaded? && r.inp == Input([], false)
        && SameRam(RunState(s, es).blocks, r.d)
        && Untouched(Names(s.blocks), d, r.d)
      else r == Invalid(d)
  {
    if Compatible(s.blocks, d) {
      var d1 := RunHead(s, d, es);
      var d2 := RunSynced(Step(s, es[0]), d1, es[1..]);
      UntouchedTrans(Names(s.blocks), d, d1, d2);
      RunEndsClean(s, es);
      CleanIsSame(RunState(s, es), d2);
    } else {
      RunStreamCons(s, es);
      RejectHeader(s, d, es[0], RunStream(Step(s, es[0]), es[1..]));
      LoadSectionsStep(d, Sections(es), RunStream(s, es), Invalid(d));
    }
  }

  lemma RejectHeader(s: Source, d: Dest, e: Event, rest: seq<u8>)
    requires e.SaveLive? && e.stage == 1 && EventOk(s, e) && ListOk(s.blocks) && DestOk(d)
    requires !Compatible(s.blocks, d)
    ensures Load(d, Input(Emit(s, e) + rest, false)) == Invalid(d)
  {
    SortProperties(s.blocks);
    var s1 := Restart(s);
    var i :| 0 <= i < |s.blocks| && !Offers(s.blocks[i], d);
    assert s.blocks[i] in s1.blocks;
    var pages := EncodeAll(Records(s1, e.ks));
    Assoc(Header(s1.blocks), pages, Be64(FLAG_EOS), rest);
    LoadHeader(d, s1.blocks, pages + (Be64(FLAG_EOS) + rest));
  }
}
