/**
  Live migration of guest RAM (arch_init.c).

  This module fixes the wire format, the loader `ram_load` as a total function of an
  arbitrary byte stream, and the protocol state machine of the sender.  The imperative
  sender and loader are in RamMigrationImpl; the theorems are in RamMigrationProof.
 */
module RamMigration {
  import opened Bytes
  import opened Collections

  const PAGE: nat := 4096  // TARGET_PAGE_SIZE

  const FLAG_COMPRESS: nat := 0x02
  const FLAG_MEM_SIZE: nat := 0x04
  const FLAG_PAGE: nat := 0x08
  const FLAG_EOS: nat := 0x10
  const FLAG_CONTINUE: nat := 0x20

  type Page = s: seq<u8> | |s| == PAGE witness seq(PAGE, _ => 0)

  /** `host` holds the block's memory, one element a page. */
  datatype RamBlock = RamBlock(offset: nat, length: nat, idstr: seq<u8>, host: seq<Page>)

  /** What qemu_ram_alloc_from_ptr establishes: page-aligned, non-empty, C-string name. */
  predicate BlockOk(b: RamBlock) {
    && 0 < b.length == |b.host| * PAGE < TWO64
    && b.offset % PAGE == 0
    && |b.idstr| <= 255 && 0 !in b.idstr
  }

  /** Blocks do not share addresses or names. */
  predicate Apart(a: RamBlock, b: RamBlock) {
    && (a.offset + a.length <= b.offset || b.offset + b.length <= a.offset)
    && a.idstr != b.idstr
  }

  ghost predicate BlocksOk(blocks: seq<RamBlock>) {
    && (forall i :: 0 <= i < |blocks| ==> BlockOk(blocks[i]))
    && (forall i, j :: 0 <= i < j < |blocks| ==> Apart(blocks[i], blocks[j]))
  }

  ghost predicate ListOk(blocks: seq<RamBlock>) {
    BlocksOk(blocks) && Total(blocks) < TWO64 - PAGE
  }

  /** ram_bytes_total */
  function Total(blocks: seq<RamBlock>): nat {
    if blocks == [] then 0 else blocks[0].length + Total(blocks[1..])
  }

  /** A page of the list: block index and page number inside the block. */
  datatype Pick = Pick(block: nat, page: nat)

  predicate InRange(blocks: seq<RamBlock>, k: Pick) {
    k.block < |blocks| && k.page < |blocks[k.block].host|
  }

  function PageAddr(b: RamBlock, page: nat): nat { b.offset + page * PAGE }

  function Addr(blocks: seq<RamBlock>, k: Pick): nat
    requires InRange(blocks, k)
  {
    PageAddr(blocks[k.block], k.page)
  }

  // ----- Wire format ---------------------------------------------------------

  datatype Body = Dup(ch: u8) | Full(page: Page)

  datatype Record = Record(cont: bool, idstr: seq<u8>, offset: nat, body: Body)

  predicate RecordOk(r: Record) {
    && r.offset % PAGE == 0 && r.offset < TWO64 - PAGE
    && |r.idstr| <= 255 && 0 !in r.idstr
  }

  function RecordFlags(r: Record): nat {
    (if r.cont then FLAG_CONTINUE else 0) + (if r.body.Dup? then FLAG_COMPRESS else FLAG_PAGE)
  }

  function NameBytes(idstr: seq<u8>): seq<u8>
    requires |idstr| <= 255
  {
    [|idstr|] + idstr
  }

  function NamePart(r: Record): seq<u8>
    requires RecordOk(r)
  {
    if r.cont then [] else NameBytes(r.idstr)
  }

  function BodyBytes(body: Body): seq<u8> {
    match body case Dup(ch) => [ch] case Full(page) => page
  }

  function Encode(r: Record): seq<u8>
    requires RecordOk(r)
  {
    Be64(r.offset + RecordFlags(r)) + (NamePart(r) + BodyBytes(r.body))
  }

  /** The named-block table that follows the MEM_SIZE word. */
  function Table(blocks: seq<RamBlock>): seq<u8>
    requires forall i :: 0 <= i < |blocks| ==> BlockOk(blocks[i])
  {
    if blocks == [] then []
    else
      assert BlockOk(blocks[0]);
      NameBytes(blocks[0].idstr) + (Be64(blocks[0].length) + Table(blocks[1..]))
  }

  function Header(blocks: seq<RamBlock>): seq<u8>
    requires ListOk(blocks)
  {
    Be64(Total(blocks) + FLAG_MEM_SIZE) + Table(blocks)
  }

  // ----- Reading -------------------------------------------------------------

  /** The rest of the stream, and whether a read has run past its end. */
  datatype Input = Input(data: seq<u8>, err: bool)

  /** qemu_get_buffer: a short read delivers what is left and records the error. */
  function GetBuffer(inp: Input, n: nat): (r: (seq<u8>, Input))
    ensures |r.0| <= n && |r.1.data| == |inp.data| - |r.0|
    ensures |r.0| < n ==> r.1.err && r.1.data == []
    ensures inp.err ==> r.1.err
    ensures r.1.err ==> inp.err || r.1.data == []
  {
    if n <= |inp.data| then (inp.data[..n], Input(inp.data[n..], inp.err))
    else (inp.data, Input([], true))
  }

  function Pad(s: seq<u8>, n: nat): (r: seq<u8>)
    requires |s| <= n
    ensures |r| == n && s <= r
  {
    s + seq(n - |s|, _ => 0)
  }

  function GetByte(inp: Input): (r: (u8, Input))
    ensures |r.1.data| <= |inp.data| && (inp.err ==> r.1.err)
    ensures |r.1.data| == |inp.data| ==> r.1.err && r.0 == 0
  {
    var (s, rest) := GetBuffer(inp, 1);
    (Pad(s, 1)[0], rest)
  }

  function GetBe64(inp: Input): (r: (nat, Input))
    ensures r.0 < TWO64 && |r.1.data| <= |inp.data| && (inp.err ==> r.1.err)
    ensures |r.1.data| == |inp.data| ==> r.1.err && r.0 == 0 && inp.data == []
    ensures r.1.err ==> inp.err || r.1.data == []
  {
    var (s, rest) := GetBuffer(inp, 8);
    Pow256Of8();
    if s == [] then FromBeZeros(Pad(s, 8)); (0, rest)
    else (FromBe(Pad(s, 8)), rest)
  }

  function CString(s: seq<u8>): seq<u8> {
    if s == [] || s[0] == 0 then [] else [s[0]] + CString(s[1..])
  }

  /** A length byte and that many name bytes, read as a C string. */
  function GetName(inp: Input): (r: (seq<u8>, Input))
    ensures |r.1.data| <= |inp.data| && (inp.err ==> r.1.err)
    ensures |r.1.data| == |inp.data| ==> r.1.data == []
  {
    var (n, rest) := GetByte(inp);
    var (s, rest') := GetBuffer(rest, n);
    (CString(s), rest')
  }

  // ----- The loader ----------------------------------------------------------

  /** Destination RAM and the static `block` of host_from_stream_offset. */
  datatype Dest = Dest(blocks: seq<RamBlock>, cur: Option<nat>)

  predicate DestOk(d: Dest) {
    && (forall i :: 0 <= i < |d.blocks| ==> 0 < d.blocks[i].length == |d.blocks[i].host| * PAGE)
    && (d.cur.Some? ==> d.cur.value < |d.blocks|)
  }

  /** First block of that name. */
  function Find(blocks: seq<RamBlock>, id: seq<u8>): (r: Option<nat>)
    ensures r.Some? ==> r.value < |blocks| && blocks[r.value].idstr == id
    ensures r.Some? ==> forall i :: 0 <= i < r.value ==> blocks[i].idstr != id
    ensures r.None? ==> forall i :: 0 <= i < |blocks| ==> blocks[i].idstr != id
  {
    FindFrom(blocks, id, 0)
  }

  function FindFrom(blocks: seq<RamBlock>, id: seq<u8>, i: nat): (r: Option<nat>)
    requires i <= |blocks|
    ensures r.Some? ==> i <= r.value < |blocks| && blocks[r.value].idstr == id
    ensures r.Some? ==> forall j :: i <= j < r.value ==> blocks[j].idstr != id
    ensures r.None? ==> forall j :: i <= j < |blocks| ==> blocks[j].idstr != id
    decreases |blocks| - i
  {
    if i == |blocks| then None
    else if blocks[i].idstr == id then Some(i)
    else FindFrom(blocks, id, i + 1)
  }

  /** Subtraction of 64-bit unsigned integers. */
  function Sub64(a: nat, b: nat): (r: nat)
    requires a < TWO64 && b < TWO64
    ensures r < TWO64
  {
    if b <= a then a - b else a - b + TWO64
  }

  /** The block-table loop of ram_load: None is -EINVAL. */
  function SyncTable(d: Dest, total: nat, inp: Input): (r: Option<Input>)
    requires DestOk(d) && total < TWO64
    ensures r.Some? ==> |r.value.data| <= |inp.data| && (inp.err ==> r.value.err)
    decreases |inp.data|
  {
    if total == 0 then Some(inp)
    else
      var (id, inp1) := GetName(inp);
      var (length, inp2) := GetBe64(inp1);
      var b := Find(d.blocks, id);
      if b.None? || d.blocks[b.value].length != length then None
      else SyncTable(d, Sub64(total, length), inp2)
  }

  datatype Flags = Flags(compress: bool, memSize: bool, page: bool, eos: bool, cont: bool)

  /** The low k bits of n, least significant first. */
  function Bits(n: nat, k: nat): (b: seq<bool>)
    ensures |b| == k
  {
    if k == 0 then [] else [n % 2 == 1] + Bits(n / 2, k - 1)
  }

  function DecodeFlags(n: nat): Flags {
    var b := Bits(n, 6);
    Flags(b[1], b[2], b[3], b[4], b[5])
  }

  /** host_from_stream_offset: the block a page record goes to. */
  function HostBlock(d: Dest, flags: Flags, inp: Input): (r: (Dest, Input))
    requires DestOk(d)
    ensures DestOk(r.0) && r.0.blocks == d.blocks && |r.1.data| <= |inp.data|
    ensures inp.err ==> r.1.err
  {
    if flags.cont then (d, inp)
    else
      var (id, inp') := GetName(inp);
      (d.(cur := Find(d.blocks, id)), inp')
  }

  /**
    Overwrites the first |bytes| octets of the page at `addr` of the current block.
    None stands for a store through a NULL or out-of-range host pointer.
   */
  function Store(d: Dest, addr: nat, bytes: seq<u8>): (r: Option<Dest>)
    requires DestOk(d) && |bytes| <= PAGE
    ensures r.Some? ==> DestOk(r.value) && r.value.cur == d.cur && |r.value.blocks| == |d.blocks|
  {
    if bytes == [] then Some(d)
    else if d.cur.None? || addr / PAGE >= |d.blocks[d.cur.value].host| then None
    else
      var b := d.blocks[d.cur.value];
      var page: Page := bytes + b.host[addr / PAGE][|bytes|..];
      Some(d.(blocks := d.blocks[d.cur.value := b.(host := b.host[addr / PAGE := page])]))
  }

  datatype Outcome =
    | More(d: Dest, inp: Input)    // the do-while loop goes round again
    | Loaded(d: Dest, inp: Input)  // returned 0; the stream left after the EOS word
    | Invalid(d: Dest)             // returned -EINVAL
    | Broken(d: Dest)              // returned -EIO
    | Crashed                      // store through a bad host pointer

  /** ram_load at version 3, from any point of its do-while loop. */
  function Load(d: Dest, inp: Input): (r: Outcome)
    requires DestOk(d) && !inp.err
    ensures !r.More?
    ensures r.Loaded? ==> DestOk(r.d) && !r.inp.err && |r.inp.data| < |inp.data|
    decreases |inp.data|
  {
    var r := Iterate(d, inp);
    if r.More? then Load(r.d, r.inp) else r
  }

  /** One iteration of the loop. */
  function Iterate(d: Dest, inp: Input): (r: Outcome)
    requires DestOk(d) && !inp.err
    ensures r.More? || r.Loaded? ==> DestOk(r.d) && !r.inp.err && |r.inp.data| < |inp.data|
  {
    var (word, inp1) := GetBe64(inp);
    var r := Dispatch(d, DecodeFlags(word % PAGE), word - word % PAGE, inp1);
    r
  }

  /** The loop body after the flag word. */
  function Dispatch(d: Dest, flags: Flags, addr: nat, inp: Input): (r: Outcome)
    requires DestOk(d) && addr < TWO64
    ensures r.More? || r.Loaded? ==> DestOk(r.d) && !r.inp.err && |r.inp.data| <= |inp.data|
    ensures inp.err ==> !r.More? && !r.Loaded?
  {
    if flags.memSize then
      var sync := SyncTable(d, addr, inp);
      if sync.None? then Invalid(d) else LoopTest(d, flags, sync.value)
    else if flags.compress then
      var (d1, inp1) := HostBlock(d, flags, inp);
      if d1.cur.None? then Invalid(d1)
      else
        var (ch, inp2) := GetByte(inp1);
        var d2 := Store(d1, addr, seq(PAGE, _ => ch));
        if d2.None? then Crashed else LoopTest(d2.value, flags, inp2)
    else if flags.page then
      var (d1, inp1) := HostBlock(d, flags, inp);
      var (bytes, inp2) := GetBuffer(inp1, PAGE);
      var d2 := Store(d1, addr, bytes);
      if d2.None? then Crashed else LoopTest(d2.value, flags, inp2)
    else
      LoopTest(d, flags, inp)
  }

  /** The tail of the loop body: error check, then the loop condition. */
  function LoopTest(d: Dest, flags: Flags, inp: Input): Outcome {
    if inp.err then Broken(d)
    else if flags.eos then Loaded(d, inp)
    else More(d, inp)
  }

  // ----- The sender as a state machine ---------------------------------------

  /** RAM list, DIRTY_MEMORY_MIGRATION bits, and the statics last_block / last_offset. */
  datatype Source = Source(blocks: seq<RamBlock>, dirty: set<nat>, last: Option<nat>, lastOffset: nat)

  ghost predicate SourceOk(s: Source) {
    && s.blocks != [] && ListOk(s.blocks)
    && (s.last.None? ==> s.lastOffset == 0)
    && (s.last.Some? ==> s.last.value < |s.blocks| && s.lastOffset % PAGE == 0
                         && s.lastOffset < s.blocks[s.last.value].length)
  }

  function AllPages(blocks: seq<RamBlock>): set<nat> {
    set i: nat, p: nat | i < |blocks| && p < |blocks[i].host| :: PageAddr(blocks[i], p)
  }

  predicate IsDup(page: seq<u8>, ch: u8) {
    forall i :: 0 <= i < |page| ==> page[i] == ch
  }

  function RecordOf(s: Source, k: Pick): Record
    requires InRange(s.blocks, k)
  {
    var page := s.blocks[k.block].host[k.page];
    Record(s.last == Some(k.block), s.blocks[k.block].idstr, k.page * PAGE,
           if IsDup(page, page[0]) then Dup(page[0]) else Full(page))
  }

  function SendPage(s: Source, k: Pick): Source
    requires InRange(s.blocks, k)
  {
    s.(dirty := s.dirty - {Addr(s.blocks, k)}, last := Some(k.block), lastOffset := k.page * PAGE)
  }

  predicate CanSend(s: Source, k: Pick) {
    InRange(s.blocks, k) && Addr(s.blocks, k) in s.dirty
  }

  /** Sending `ks` in order, each dirty at its turn. */
  ghost predicate CanSendAll(s: Source, ks: seq<Pick>) {
    ks == [] || (CanSendAll(s, Front(ks)) && CanSend(SendAll(s, Front(ks)), Last(ks)))
  }

  function SendAll(s: Source, ks: seq<Pick>): (r: Source)
    ensures r.blocks == s.blocks
  {
    if ks == [] then s
    else
      var m := SendAll(s, Front(ks));
      if InRange(m.blocks, Last(ks)) then SendPage(m, Last(ks)) else m
  }

  ghost function Records(s: Source, ks: seq<Pick>): (rs: seq<Record>)
    requires ListOk(s.blocks) && CanSendAll(s, ks)
    ensures forall i :: 0 <= i < |rs| ==> RecordOk(rs[i])
  {
    if ks == [] then []
    else
      var m, k := SendAll(s, Front(ks)), Last(ks);
      assert BlockOk(m.blocks[k.block]);
      LengthBound(m.blocks, k.block);
      Records(s, Front(ks)) + [RecordOf(m, k)]
  }

  lemma {:induction false} LengthBound(blocks: seq<RamBlock>, i: nat)
    requires i < |blocks|
    ensures blocks[i].length <= Total(blocks)
  {
    if i > 0 {
      LengthBound(blocks[1..], i - 1);
    }
  }

  function EncodeAll(rs: seq<Record>): seq<u8>
    requires forall i :: 0 <= i < |rs| ==> RecordOk(rs[i])
  {
    if rs == [] then [] else EncodeAll(Front(rs)) + Encode(Last(rs))
  }

  function Front<T>(s: seq<T>): seq<T> requires s != [] { s[..|s| - 1] }
  function Last<T>(s: seq<T>): T requires s != [] { s[|s| - 1] }

  // ----- Whole runs ----------------------------------------------------------

  datatype Event =
    | GuestWrite(k: Pick, page: Page)
    | SaveLive(stage: nat, ks: seq<Pick>)  // ks: the pages this call happened to send

  function WritePage(blocks: seq<RamBlock>, k: Pick, page: Page): seq<RamBlock>
    requires InRange(blocks, k)
  {
    blocks[k.block := blocks[k.block].(host := blocks[k.block].host[k.page := page])]
  }

  /** sort_ram_list */
  function SortByOffset(blocks: seq<RamBlock>): (r: seq<RamBlock>)
    ensures |r| == |blocks|
  {
    if blocks == [] then [] else InsertByOffset(blocks[0], SortByOffset(blocks[1..]))
  }

  function InsertByOffset(b: RamBlock, blocks: seq<RamBlock>): (r: seq<RamBlock>)
    ensures |r| == |blocks| + 1
  {
    if blocks == [] || b.offset <= blocks[0].offset then [b] + blocks
    else [blocks[0]] + InsertByOffset(b, blocks[1..])
  }

  ghost predicate InOrder(blocks: seq<RamBlock>) {
    forall i, j :: 0 <= i < j < |blocks| ==> blocks[i].offset <= blocks[j].offset
  }

  lemma {:induction false} InsertMembers(b: RamBlock, blocks: seq<RamBlock>)
    ensures forall x :: x in InsertByOffset(b, blocks) <==> x == b || x in blocks
    ensures Total(InsertByOffset(b, blocks)) == b.length + Total(blocks)
    ensures InOrder(blocks) ==> InOrder(InsertByOffset(b, blocks))
  {
    assert ([b] + blocks)[1..] == blocks;
    if blocks != [] && b.offset > blocks[0].offset {
      var r := InsertByOffset(b, blocks[1..]);
      InsertMembers(b, blocks[1..]);
      assert ([blocks[0]] + r)[1..] == r && blocks == [blocks[0]] + blocks[1..];
    }
  }

  lemma {:induction false} InsertOk(b: RamBlock, blocks: seq<RamBlock>)
    requires BlocksOk([b] + blocks)
    ensures BlocksOk(InsertByOffset(b, blocks))
  {
    if blocks != [] && b.offset > blocks[0].offset {
      var rest := blocks[1..];
      assert blocks == [blocks[0]] + rest;
      BlocksOkCons(b, blocks);
      BlocksOkCons(blocks[0], rest);
      BlocksOkCons(b, rest);
      InsertOk(b, rest);
      InsertMembers(b, rest);
      assert Apart(blocks[0], b) by { assert Apart(b, blocks[0]); }
      BlocksOkCons(blocks[0], InsertByOffset(b, rest));
    }
  }

  lemma BlocksOkCons(b: RamBlock, blocks: seq<RamBlock>)
    ensures BlocksOk([b] + blocks) <==>
            BlockOk(b) && BlocksOk(blocks) && forall x :: x in blocks ==> Apart(b, x)
  {
    if BlocksOk([b] + blocks) {
      BlocksOkTail(b, blocks);
    }
    if BlockOk(b) && BlocksOk(blocks) && forall x :: x in blocks ==> Apart(b, x) {
      BlocksOkPush(b, blocks);
    }
  }

  lemma BlocksOkTail(b: RamBlock, blocks: seq<RamBlock>)
    requires BlocksOk([b] + blocks)
    ensures BlockOk(b) && BlocksOk(blocks) && forall x :: x in blocks ==> Apart(b, x)
  {
    var s := [b] + blocks;
    assert s[0] == b;
    forall i | 0 <= i < |blocks| ensures BlockOk(blocks[i]) && Apart(b, blocks[i]) {
      assert s[i + 1] == blocks[i];
    }
    forall i, j | 0 <= i < j < |blocks| ensures Apart(blocks[i], blocks[j]) {
      assert s[i + 1] == blocks[i] && s[j + 1] == blocks[j];
    }
  }

  lemma BlocksOkPush(b: RamBlock, blocks: seq<RamBlock>)
    requires BlockOk(b) && BlocksOk(blocks) && forall x :: x in blocks ==> Apart(b, x)
    ensures BlocksOk([b] + blocks)
  {
    var s := [b] + blocks;
    forall i, j | 0 <= i < j < |s| ensures Apart(s[i], s[j]) {
      assert s[j] == blocks[j - 1];
      if i > 0 {
        assert s[i] == blocks[i - 1];
      }
    }
    forall i | 0 <= i < |s| ensures BlockOk(s[i]) {
      if i > 0 {
        assert s[i] == blocks[i - 1];
      }
    }
  }

  /** Sorting keeps the list well formed and keeps exactly its blocks, in address order. */
  lemma {:induction false} SortProperties(blocks: seq<RamBlock>)
    ensures forall x :: x in SortByOffset(blocks) <==> x in blocks
    ensures Total(SortByOffset(blocks)) == Total(blocks)
    ensures InOrder(SortByOffset(blocks))
    ensures BlocksOk(blocks) ==> BlocksOk(SortByOffset(blocks))
  {
    if blocks != [] {
      SortProperties(blocks[1..]);
      InsertMembers(blocks[0], SortByOffset(blocks[1..]));
      assert blocks == [blocks[0]] + blocks[1..];
      BlocksOkCons(blocks[0], blocks[1..]);
      BlocksOkCons(blocks[0], SortByOffset(blocks[1..]));
      if BlocksOk(blocks) {
        InsertOk(blocks[0], SortByOffset(blocks[1..]));
      }
    }
  }

  /** Stage 1: forget the last page sent, sort the list, mark every page dirty. */
  function Restart(s: Source): Source {
    var blocks := SortByOffset(s.blocks);
    Source(blocks, s.dirty + AllPages(blocks), None, 0)
  }

  function Begin(s: Source, stage: nat): Source {
    if stage == 1 then Restart(s) else s
  }

  ghost predicate NoneDirty(s: Source) {
    forall k :: InRange(s.blocks, k) ==> Addr(s.blocks, k) !in s.dirty
  }

  /** What a call may do: send dirty pages, and at stage 3 go on until ram_save_block finds none. */
  ghost predicate EventOk(s: Source, e: Event) {
    match e
    case GuestWrite(k, page) => InRange(s.blocks, k)
    case SaveLive(stage, ks) =>
      && 1 <= stage <= 3 && CanSendAll(Begin(s, stage), ks)
      && (stage == 3 ==> NoneDirty(SendAll(s, ks)))
  }

  function Step(s: Source, e: Event): Source {
    match e
    case GuestWrite(k, page) =>
      if InRange(s.blocks, k) then
        s.(blocks := WritePage(s.blocks, k, page), dirty := s.dirty + {Addr(s.blocks, k)})
      else s
    case SaveLive(stage, ks) => SendAll(Begin(s, stage), ks)
  }

  /** The bytes an event puts on the stream. */
  ghost function Emit(s: Source, e: Event): seq<u8>
    requires EventOk(s, e) && ListOk(s.blocks)
  {
    match e
    case GuestWrite(_, _) => []
    case SaveLive(stage, ks) =>
      var s1 := Begin(s, stage);
      SortProperties(s.blocks);
      (if stage == 1 then Header(s1.blocks) else []) + (EncodeAll(Records(s1, ks)) + Be64(FLAG_EOS))
  }
}
