/**
  The buffered byte stream of snapshots and migration (QEMUFile in savevm.c).  A writer hands
  its bytes to the backend either from its buffer or as a vector of pieces of its own buffer and
  of the callers' buffers; a reader gets them back over a backend that may read short.
 */
module QemuFile {
  import opened Bytes
  import BlockMerge

  type Iov = BlockMerge.Iov

  function Flatten(iov: Iov): seq<u8> { BlockMerge.Flatten(iov) }

  const IO_BUF_SIZE: nat := 32768
  const MAX_IOV_SIZE: nat := 64
  const EIO: int := 5
  const EAGAIN: int := 11

  /** An element of the vector: a stretch of the file's own buffer, or a caller's buffer. */
  datatype Piece = Own(start: nat, len: nat) | Ext(addr: nat, data: seq<u8>)

  predicate Fits(p: Piece, n: nat) { p.Own? ==> p.start + p.len <= n }

  predicate AllFit(iov: seq<Piece>, n: nat) { forall i :: 0 <= i < |iov| ==> Fits(iov[i], n) }

  function Bytes1(b: seq<u8>, p: Piece): seq<u8>
    requires Fits(p, |b|)
  {
    if p.Own? then b[p.start..p.start + p.len] else p.data
  }

  /** The bytes that the vector stands for. */
  function Gather(b: seq<u8>, iov: seq<Piece>): seq<u8>
    requires AllFit(iov, |b|)
  {
    if iov == [] then [] else Gather(b, iov[..|iov| - 1]) + Bytes1(b, iov[|iov| - 1])
  }

  /** Changing the buffer past n does not change pieces below n. */
  lemma {:induction false} GatherSame(b: seq<u8>, b': seq<u8>, iov: seq<Piece>, n: nat)
    requires |b'| == |b| && n <= |b| && AllFit(iov, n) && b'[..n] == b[..n]
    ensures Gather(b', iov) == Gather(b, iov)
  {
    if iov != [] {
      var rest, p := iov[..|iov| - 1], iov[|iov| - 1];
      GatherSame(b, b', rest, n);
      PieceSame(b, b', p, n);
      assert Gather(b, iov) == Gather(b, rest) + Bytes1(b, p);
      assert Gather(b', iov) == Gather(b', rest) + Bytes1(b', p);
    }
  }

  lemma PieceSame(b: seq<u8>, b': seq<u8>, p: Piece, n: nat)
    requires |b'| == |b| && n <= |b| && Fits(p, n) && b'[..n] == b[..n]
    ensures Bytes1(b', p) == Bytes1(b, p)
  {
    if p.Own? {
      SliceSame(b, b', n, p.start, p.start + p.len);
    }
  }

  lemma SliceSame(b: seq<u8>, b': seq<u8>, n: nat, i: nat, j: nat)
    requires |b'| == |b| && i <= j <= n <= |b| && b'[..n] == b[..n]
    ensures b'[i..j] == b[i..j]
  {
    assert b[i..j] == b[..n][i..j];
    assert b'[i..j] == b'[..n][i..j];
  }

  /** p starts where the last piece ends, so that the two are one. */
  predicate Adjacent(last: Piece, p: Piece) {
    match last
    case Own(start, len) => p.Own? && p.start == start + len
    case Ext(addr, data) => p.Ext? && p.addr == addr + |data|
  }

  /** The bytes of p lie behind those of the last piece in memory. */
  ghost predicate Continues(last: Piece, p: Piece) {
    || (last.Own? && p.Own? && last.start + last.len == p.start)
    || (last.Ext? && p.Ext? && last.addr + |last.data| == p.addr)
  }

  function Extend(last: Piece, p: Piece): Piece
    requires Adjacent(last, p)
  {
    if last.Own? then Own(last.start, last.len + p.len) else Ext(last.addr, last.data + p.data)
  }

  /** The vector of add_to_iovec with one more piece. */
  function Added(iov: seq<Piece>, p: Piece): seq<Piece> {
    if iov != [] && Adjacent(iov[|iov| - 1], p) then iov[..|iov| - 1] + [Extend(iov[|iov| - 1], p)] else iov + [p]
  }

  lemma ExtendedBytes(b: seq<u8>, last: Piece, p: Piece)
    requires Fits(last, |b|) && Fits(p, |b|) && Adjacent(last, p)
    ensures Bytes1(b, Extend(last, p)) == Bytes1(b, last) + Bytes1(b, p)
  {
  }

  lemma Assoc(a: seq<u8>, b: seq<u8>, c: seq<u8>)
    ensures a + (b + c) == a + b + c
  {
  }

  lemma AddedBytes(b: seq<u8>, iov: seq<Piece>, p: Piece)
    requires AllFit(iov, |b|) && Fits(p, |b|)
    ensures AllFit(Added(iov, p), |b|) && Gather(b, Added(iov, p)) == Gather(b, iov) + Bytes1(b, p)
  {
    AddedFits(iov, p, |b|);
    var iov' := Added(iov, p);
    if iov != [] && Adjacent(iov[|iov| - 1], p) {
      var last := iov[|iov| - 1];
      assert iov'[..|iov'| - 1] == iov[..|iov| - 1];
      ExtendedBytes(b, last, p);
      Assoc(Gather(b, iov[..|iov| - 1]), Bytes1(b, last), Bytes1(b, p));
    } else {
      assert iov'[..|iov'| - 1] == iov;
    }
  }

  lemma AddedFits(iov: seq<Piece>, p: Piece, n: nat)
    requires AllFit(iov, n) && Fits(p, n)
    ensures AllFit(Added(iov, p), n)
  {
  }

  /**
    How one backend write turns out: it takes everything, or only the first n bytes and says so
    with a nonnegative count, or reports an error after `sent` bytes.
   */
  datatype Outcome = Fine | Short(n: nat) | Fails(error: nat, sent: nat)

  /** The outcome of every write, in order. */
  type Backend = nat -> Outcome

  function Min(a: nat, b: nat): nat { if a < b then a else b }

  function Taken(o: Outcome, data: seq<u8>): seq<u8> {
    match o
    case Fine => data
    case Short(n) => data[..Min(n, |data|)]
    case Fails(_, sent) => data[..Min(sent, |data|)]
  }

  /** What the write returns. */
  function Count(o: Outcome, data: seq<u8>): int { if o.Fails? then -1 - o.error else |Taken(o, data)| }

  /** The write loses bytes although it reports no error. */
  predicate Loses(o: Outcome, data: seq<u8>) { o.Short? && o.n < |data| }

  /** What has been offered to the backend, and what it has taken. */
  function Offered(writes: seq<seq<u8>>): seq<u8> {
    if writes == [] then [] else Offered(writes[..|writes| - 1]) + writes[|writes| - 1]
  }

  function Received(backend: Backend, writes: seq<seq<u8>>): seq<u8> {
    if writes == [] then []
    else Received(backend, writes[..|writes| - 1]) + Taken(backend(|writes| - 1), writes[|writes| - 1])
  }

  /** The first error among the first n writes, or 0. */
  function FirstError(backend: Backend, n: nat): int {
    if n == 0 then 0
    else if FirstError(backend, n - 1) != 0 then FirstError(backend, n - 1)
    else if backend(n - 1).Fails? then -1 - backend(n - 1).error
    else 0
  }

  lemma AnotherWrite(backend: Backend, writes: seq<seq<u8>>, data: seq<u8>)
    ensures Offered(writes + [data]) == Offered(writes) + data
    ensures Received(backend, writes + [data]) == Received(backend, writes) + Taken(backend(|writes|), data)
  {
    assert (writes + [data])[..|writes|] == writes;
  }

  lemma NextError(backend: Backend, n: nat, data: seq<u8>)
    ensures FirstError(backend, n + 1) ==
      if FirstError(backend, n) != 0 then FirstError(backend, n)
        else if Count(backend(n), data) < 0 then Count(backend(n), data) else 0
  {
  }

  lemma NothingPending(b: seq<u8>, iov: seq<Piece>, writev: bool, n: nat)
    requires AllFit(iov, |b|) && n <= |b| && (if writev then iov == [] else n == 0)
    ensures (if writev then Gather(b, iov) else b[..n]) == []
  {
  }

  ghost predicate NoneLost(backend: Backend, writes: seq<seq<u8>>) {
    forall i :: 0 <= i < |writes| ==> !Loses(backend(i), writes[i])
  }

  lemma {:induction false} ErrorFree(backend: Backend, n: nat, i: nat)
    requires FirstError(backend, n) == 0 && i < n
    ensures !backend(i).Fails?
  {
    if i < n - 1 {
      ErrorFree(backend, n - 1, i);
    }
  }

  lemma {:induction false} ReceivedLength(backend: Backend, writes: seq<seq<u8>>)
    requires FirstError(backend, |writes|) == 0
    ensures |Received(backend, writes)| <= |Offered(writes)|
    ensures |Received(backend, writes)| == |Offered(writes)| <==> NoneLost(backend, writes)
    ensures NoneLost(backend, writes) ==> Received(backend, writes) == Offered(writes)
  {
    if writes != [] {
      var n := |writes| - 1;
      var rest := writes[..n];
      ErrorFree(backend, n + 1, n);
      assert FirstError(backend, n) == 0;
      ReceivedLength(backend, rest);
      assert NoneLost(backend, writes) <==> NoneLost(backend, rest) && !Loses(backend(n), writes[n]) by {
        assert forall i :: 0 <= i < n ==> rest[i] == writes[i];
      }
    }
  }

  /** Without an error the backend has everything that was offered iff no write was short. */
  lemma ReceivedIff(backend: Backend, writes: seq<seq<u8>>)
    requires FirstError(backend, |writes|) == 0
    ensures Received(backend, writes) == Offered(writes) <==> NoneLost(backend, writes)
  {
    ReceivedLength(backend, writes);
  }

  ghost predicate IsPrefix(a: seq<u8>, b: seq<u8>) { |a| <= |b| && a == b[..|a|] }

  /** A backend that takes every byte of every write. */
  ghost predicate TakesAll(backend: Backend) { forall i :: backend(i) == Fine }

  lemma {:induction false} NoErrors(backend: Backend, n: nat)
    requires TakesAll(backend)
    ensures FirstError(backend, n) == 0
  {
    if n > 0 {
      NoErrors(backend, n - 1);
    }
  }

  class Writer {
    const writev: bool
    const backend: Backend
    const buf: array<u8>
    var bufIndex: nat
    var iov: seq<Piece>
    var pos: nat
    var lastError: int
    var received: seq<u8>
    var turn: nat
    ghost var writes: seq<seq<u8>>
    ghost var log: seq<u8>

    /** Bytes that have not been offered to the backend yet. */
    ghost function Pending(): seq<u8>
      reads this, buf
      requires AllFit(iov, buf.Length) && bufIndex <= buf.Length
    {
      if writev then Gather(buf[..], iov) else buf[..bufIndex]
    }

    ghost predicate Shape()
      reads this
    {
      && buf.Length == IO_BUF_SIZE && bufIndex <= IO_BUF_SIZE && AllFit(iov, IO_BUF_SIZE) && |iov| <= MAX_IOV_SIZE
      && (!writev ==> iov == [])
    }

    /** The backend has what it took of the writes so far, and the first error is recorded. */
    ghost predicate Sent()
      reads this
    {
      turn == |writes| && received == Received(backend, writes) && lastError == FirstError(backend, turn)
    }

    /** Up to the first error, what has been put is what has been offered and what is pending. */
    ghost predicate Kept()
      reads this, buf
      requires Shape()
    {
      && Sent()
      && if lastError == 0 then Offered(writes) + Pending() == log && pos == |received|
         else IsPrefix(Offered(writes), log) && Pending() == [] && iov == []
    }

    ghost predicate Valid()
      reads this, buf
    {
      Shape() && Kept() && bufIndex < IO_BUF_SIZE && |iov| < MAX_IOV_SIZE && AllFit(iov, bufIndex)
    }

    constructor (writev: bool, backend: Backend)
      ensures Valid() && log == [] && lastError == 0 && turn == 0
      ensures this.writev == writev && this.backend == backend && fresh(buf)
    {
      this.writev, this.backend := writev, backend;
      buf := new u8[IO_BUF_SIZE](_ => 0);
      bufIndex, iov, pos, lastError, received, turn := 0, [], 0, 0, [], 0;
      writes, log := [], [];
    }

    /** The backend. */
    method Send(data: seq<u8>) returns (ret: int)
      modifies this`received, this`turn
      ensures turn == old(turn) + 1 && received == old(received) + Taken(backend(old(turn)), data)
      ensures ret == Count(backend(old(turn)), data)
    {
      var o := backend(turn);
      turn := turn + 1;
      received := received + Taken(o, data);
      ret := Count(o, data);
    }

    /** Is there anything for qemu_fflush to write? */
    ghost predicate Writes()
      reads this
    {
      if writev then iov != [] else bufIndex > 0
    }

    /**
      qemu_fflush: one write of what is pending, if there is anything.  Any nonnegative count
      is taken for success; the backend then has what was put iff no write was short.
     */
    method Fflush()
      requires Shape() && Kept()
      modifies this`bufIndex, this`iov, this`pos, this`lastError, this`received, this`turn, this`writes
      ensures Shape() && Kept() && bufIndex == 0 && iov == []
      ensures writes == if old(Writes()) then old(writes) + [old(Pending())] else old(writes)
      ensures lastError == 0 ==> Offered(writes) == log && (received == log <==> NoneLost(backend, writes))
      ensures old(lastError) != 0 ==> lastError == old(lastError)
    {
      FlushQuietly();
      if lastError == 0 {
        ReceivedIff(backend, writes);
      }
    }

    /** qemu_fflush, without the reading of its effect on the whole stream. */
    method FlushQuietly()
      requires Shape() && Kept()
      modifies this`bufIndex, this`iov, this`pos, this`lastError, this`received, this`turn, this`writes
      ensures Shape() && Kept() && bufIndex == 0 && iov == []
      ensures writes == if old(Writes()) then old(writes) + [old(Pending())] else old(writes)
      ensures lastError == 0 ==> Offered(writes) == log
      ensures old(lastError) != 0 ==> lastError == old(lastError)
    {
      var ret := WritePending();
      if ret >= 0 {
        pos := pos + ret;
      }
      bufIndex := 0;
      iov := [];
      if ret < 0 && lastError == 0 {
        lastError := ret;
      }
      assert buf[..0] == [] && Offered(writes) + [] == Offered(writes);
    }

    /** The call of writev_buffer or put_buffer. */
    method WritePending() returns (ret: int)
      requires Shape() && Kept()
      modifies this`received, this`turn, this`writes
      ensures writes == if Writes() then old(writes) + [Pending()] else old(writes)
      ensures turn == |writes| && received == Received(backend, writes)
      ensures FirstError(backend, turn) == if lastError == 0 && ret < 0 then ret else lastError
      ensures lastError == 0 ==> Offered(writes) == log && (ret >= 0 ==> pos + ret == |received|)
      ensures lastError != 0 ==> ret == 0
    {
      ret := 0;
      ghost var n := turn;
      if Writes() {
        AnotherWrite(backend, writes, Pending());
        NextError(backend, n, Pending());
      } else {
        NothingPending(buf[..], iov, writev, bufIndex);
      }
      if writev {
        if |iov| > 0 {
          ret := Send(Gather(buf[..], iov));
          writes := writes + [Pending()];
        }
      } else if bufIndex > 0 {
        ret := Send(buf[..bufIndex]);
        writes := writes + [Pending()];
      }
    }

    /** add_to_iovec, for a piece that has just been put. */
    method AddToIovec(p: Piece, ghost data: seq<u8>)
      requires Shape() && writev && lastError == 0 && |iov| < MAX_IOV_SIZE && Fits(p, IO_BUF_SIZE)
      requires Bytes1(buf[..], p) == data && Sent()
      requires Offered(writes) + Gather(buf[..], iov) + data == log && pos == |received|
      modifies this`bufIndex, this`iov, this`pos, this`lastError, this`received, this`turn, this`writes
      ensures Shape() && Kept() && |iov| < MAX_IOV_SIZE
      ensures (bufIndex == old(bufIndex) && iov == Added(old(iov), p)) || (bufIndex == 0 && iov == [])
      ensures old(iov) != [] && Continues(old(iov)[|old(iov)| - 1], p) ==> |iov| == |old(iov)|
      ensures !(old(iov) != [] && Continues(old(iov)[|old(iov)| - 1], p)) ==>
        |iov| == if |old(iov)| + 1 < 64 then |old(iov)| + 1 else 0
    {
      AppendPiece(p, data);
      if |iov| >= MAX_IOV_SIZE {
        Fflush();
      }
    }

    method AppendPiece(p: Piece, ghost data: seq<u8>)
      requires Shape() && writev && lastError == 0 && |iov| < MAX_IOV_SIZE && Fits(p, IO_BUF_SIZE)
      requires Bytes1(buf[..], p) == data && Sent()
      requires Offered(writes) + Gather(buf[..], iov) + data == log && pos == |received|
      modifies this`iov
      ensures Shape() && Kept() && iov == Added(old(iov), p)
    {
      AddedBytes(buf[..], iov, p);
      Assoc(Offered(writes), Gather(buf[..], iov), data);
      if |iov| > 0 && Adjacent(iov[|iov| - 1], p) {
        iov := iov[..|iov| - 1] + [Extend(iov[|iov| - 1], p)];
      } else {
        iov := iov + [p];
      }
    }

    /** Copies data into the free part of the buffer. */
    method Copy(data: seq<u8>)
      requires Valid() && bufIndex + |data| <= IO_BUF_SIZE
      modifies buf
      ensures buf[..][bufIndex..bufIndex + |data|] == data && buf[..bufIndex] == old(buf[..bufIndex])
      ensures Gather(buf[..], iov) == old(Gather(buf[..], iov))
    {
      ghost var was := buf[..];
      forall k | 0 <= k < |data| {
        buf[bufIndex + k] := data[k];
      }
      assert was[..bufIndex] == buf[..][..bufIndex];
      GatherSame(was, buf[..], iov, bufIndex);
    }

    /** Copying some bytes and accounting for them; qemu_put_byte and one round of qemu_put_buffer. */
    method PutChunk(data: seq<u8>)
      requires Valid() && lastError == 0 && 0 < |data| <= IO_BUF_SIZE - bufIndex
      modifies this, buf
      ensures Valid() && log == old(log) + data
    {
      if writev {
        PutOwn(data);
      } else {
        PutPlain(data);
      }
      if bufIndex == IO_BUF_SIZE {
        Fflush();
      }
    }

    method PutOwn(data: seq<u8>)
      requires Valid() && writev && lastError == 0 && 0 < |data| <= IO_BUF_SIZE - bufIndex
      modifies this, buf
      ensures Shape() && Kept() && |iov| < MAX_IOV_SIZE && AllFit(iov, bufIndex) && log == old(log) + data
    {
      CopyOwn(data);
      ghost var n, iov0 := bufIndex, iov;
      AddToIovec(Own(bufIndex, |data|), data);
      AddedFits(iov0, Own(n, |data|), n + |data|);
      bufIndex := bufIndex + |data|;
    }

    method CopyOwn(data: seq<u8>)
      requires Valid() && writev && lastError == 0 && bufIndex + |data| <= IO_BUF_SIZE
      modifies this`log, buf
      ensures Shape() && log == old(log) + data && buf[..][bufIndex..bufIndex + |data|] == data
      ensures Offered(writes) + Gather(buf[..], iov) + data == log
    {
      Copy(data);
      log := log + data;
    }

    method PutPlain(data: seq<u8>)
      requires Valid() && !writev && lastError == 0 && 0 < |data| <= IO_BUF_SIZE - bufIndex
      modifies this, buf
      ensures Shape() && Kept() && |iov| < MAX_IOV_SIZE && AllFit(iov, bufIndex) && log == old(log) + data
      ensures lastError == 0
    {
      ghost var pending := Pending();
      Copy(data);
      Assoc(Offered(writes), pending, data);
      log := log + data;
      assert buf[..bufIndex + |data|] == buf[..bufIndex] + data;
      bufIndex := bufIndex + |data|;
    }

    /** Between operations, too, nothing is missing iff no write was short. */
    lemma WholeIff()
      requires Shape() && Kept() && lastError == 0
      ensures received + Pending() == log <==> NoneLost(backend, writes)
    {
      ReceivedLength(backend, writes);
    }

    lemma Account()
      requires Shape() && Kept()
      ensures Accounted()
    {
      if lastError == 0 {
        WholeIff();
      }
    }

    /** Unless there was an error, the backend has or will be offered all that was put iff no write was short. */
    ghost predicate Accounted()
      reads this, buf
    {
      Shape() && (lastError == 0 ==> (received + Pending() == log <==> NoneLost(backend, writes)))
    }

    /** qemu_put_byte */
    method PutByte(v: u8)
      requires Valid()
      modifies this, buf
      ensures Valid() && Accounted() && log == (if old(lastError) == 0 then old(log) + [v] else old(log))
      ensures old(lastError) != 0 ==> lastError != 0
    {
      if lastError == 0 {
        PutChunk([v]);
      }
      Account();
    }

    /** qemu_put_buffer; what follows an error inside is not sent. */
    method PutBuffer(data: seq<u8>)
      requires Valid()
      modifies this, buf
      ensures Valid() && Accounted() && log == (if old(lastError) == 0 then old(log) + data else old(log))
      ensures old(lastError) != 0 ==> lastError != 0
    {
      if lastError == 0 {
        PutChunks(data);
      }
      Account();
    }

    method PutChunks(data: seq<u8>)
      requires Valid() && lastError == 0
      modifies this, buf
      ensures Valid() && log == old(log) + data
    {
      ghost var log0 := log;
      var i := 0;
      assert data[..0] == [];
      while i < |data|
        invariant 0 <= i <= |data| && Valid() && lastError == 0 && log == log0 + data[..i]
        decreases |data| - i
      {
        var l := IO_BUF_SIZE - bufIndex;
        if l > |data| - i {
          l := |data| - i;
        }
        PutChunk(data[i..i + l]);
        NextChunk(log0, data, i, l);
        if lastError != 0 {
          Abandon(log0 + data, data[i + l..]);
          return;
        }
        i := i + l;
      }
      assert data[..i] == data;
    }

    /** qemu_put_be16 */
    method PutBe16(v: nat)
      requires Valid()
      modifies this, buf
      ensures Valid() && Accounted() && (lastError == 0 ==> log == old(log) + Be(v, 2))
      ensures old(lastError) != 0 ==> lastError != 0
    {
      BeTwo(v);
      PutByte(v / 256 % 256);
      PutByte(v % 256);
      Assoc(old(log), [v / 256 % 256], [v % 256]);
    }

    /** qemu_put_be32 */
    method PutBe32(v: nat)
      requires Valid()
      modifies this, buf
      ensures Valid() && Accounted() && (lastError == 0 ==> log == old(log) + Be(v, 4))
      ensures old(lastError) != 0 ==> lastError != 0
    {
      BeFour(v);
      PutByte(v / 0x100_0000 % 256);
      PutByte(v / 0x1_0000 % 256);
      PutByte(v / 256 % 256);
      PutByte(v % 256);
      FourAppend(old(log), v / 0x100_0000 % 256, v / 0x1_0000 % 256, v / 256 % 256, v % 256);
    }

    /** qemu_put_be64 */
    method PutBe64(v: nat)
      requires Valid()
      modifies this, buf
      ensures Valid() && Accounted() && (lastError == 0 ==> log == old(log) + Be(v, 8))
      ensures old(lastError) != 0 ==> lastError != 0
    {
      BeEight(v);
      PutBe32(v / 0x1_0000_0000);
      PutBe32(v);
      Assoc(old(log), Be(v / 0x1_0000_0000, 4), Be(v, 4));
    }

    /** After an error the rest of the request is not sent. */
    ghost method Abandon(all: seq<u8>, rest: seq<u8>)
      requires Valid() && lastError != 0 && all == log + rest
      modifies this`log
      ensures Valid() && log == all
    {
      log := all;
    }

    /** qemu_put_buffer_async: the caller's buffer itself becomes a piece. */
    method PutBufferAsync(addr: nat, data: seq<u8>)
      requires Valid()
      modifies this, buf
      ensures Valid() && Accounted() && log == (if old(lastError) == 0 then old(log) + data else old(log))
      ensures old(lastError) != 0 ==> lastError != 0
    {
      if !writev {
        PutBuffer(data);
        return;
      }
      if lastError != 0 {
        return;
      }
      log := log + data;
      ghost var n := bufIndex;
      AddToIovec(Ext(addr, data), data);
      AddedFits(old(iov), Ext(addr, data), n);
      Account();
    }
  }

  /** One byte put and flushed to a backend whose write comes up short: it is gone, and no error is recorded. */
  method ShortWriteLosesByte(v: u8) returns (received: seq<u8>, error: int, ghost log: seq<u8>)
    ensures log == [v] && received == [] && error == 0
  {
    var backend := _ => Short(0);
    var w := new Writer(false, backend);
    NothingTaken(backend, w.writes);
    w.PutByte(v);
    assert w.log == [v];
    w.Fflush();
    NothingTaken(backend, w.writes);
    received, error, log := w.received, w.lastError, w.log;
  }

  lemma {:induction false} NothingTaken(backend: Backend, writes: seq<seq<u8>>)
    requires forall i :: backend(i) == Short(0)
    ensures Received(backend, writes) == [] && FirstError(backend, |writes|) == 0
  {
    if writes != [] {
      NothingTaken(backend, writes[..|writes| - 1]);
    }
  }

  lemma NextChunk(log: seq<u8>, data: seq<u8>, i: nat, l: nat)
    requires i + l <= |data|
    ensures log + data[..i] + data[i..i + l] == log + data[..i + l]
    ensures log + data[..i + l] + data[i + l..] == log + data
  {
    assert data[..i] + data[i..i + l] == data[..i + l];
    assert data[..i + l] + data[i + l..] == data;
  }

  lemma FourAppend(s: seq<u8>, a: u8, b: u8, c: u8, d: u8)
    ensures s + [a] + [b] + [c] + [d] == s + [a, b, c, d]
  {
  }

  lemma BeTwo(v: nat)
    ensures Be(v, 2) == [v / 256 % 256, v % 256]
  {
    assert Be(v / 256, 1) == Be(v / 256 / 256, 0) + [v / 256 % 256];
  }

  lemma BeFour(v: nat)
    ensures Be(v, 4) == [v / 0x100_0000 % 256, v / 0x1_0000 % 256, v / 256 % 256, v % 256]
  {
    BeTwo(v / 0x1_0000);
    assert v / 256 / 256 == v / 0x1_0000 && v / 0x1_0000 / 256 == v / 0x100_0000;
    assert Be(v, 4) == Be(v / 256, 3) + [v % 256];
    assert Be(v / 256, 3) == Be(v / 0x1_0000, 2) + [v / 256 % 256];
  }

  lemma BeEight(v: nat)
    ensures Be(v, 8) == Be(v / 0x1_0000_0000, 4) + Be(v, 4)
  {
    BeFour(v);
    assert v / 256 / 256 == v / 0x1_0000 && v / 0x1_0000 / 256 == v / 0x100_0000 &&
      v / 0x100_0000 / 256 == v / 0x1_0000_0000;
    assert Be(v, 8) == Be(v / 256, 7) + [v % 256];
    assert Be(v / 256, 7) == Be(v / 0x1_0000, 6) + [v / 256 % 256];
    assert Be(v / 0x1_0000, 6) == Be(v / 0x100_0000, 5) + [v / 0x1_0000 % 256];
    assert Be(v / 0x100_0000, 5) == Be(v / 0x1_0000_0000, 4) + [v / 0x100_0000 % 256];
  }

  // ----- The vector backend --------------------------------------------------

  /** How one writev call turns out: some bytes, at least one, from the front; a signal; or an error. */
  datatype Wrote = Some(n: nat) | Interrupted | Failed(error: nat)

  /** writev, again after every signal: what is written, or a negative error. */
  method WriteSome(data: seq<u8>, script: seq<Wrote>) returns (len: int, rest: seq<Wrote>)
    requires |data| > 0
    ensures len < 0 || 1 <= len <= |data|
    ensures (forall i :: 0 <= i < |script| ==> !script[i].Failed?) ==>
      len > 0 && forall i :: 0 <= i < |rest| ==> !rest[i].Failed?
  {
    rest := script;
    while rest != [] && rest[0].Interrupted?
      invariant (forall i :: 0 <= i < |script| ==> !script[i].Failed?) ==>
        forall i :: 0 <= i < |rest| ==> !rest[i].Failed?
      decreases |rest|
    {
      rest := rest[1..];
    }
    len := |data|;
    if rest != [] {
      var o := rest[0];
      rest := rest[1..];
      if o.Failed? {
        return -1 - o.error, rest;
      }
      len := if o.n == 0 then 1 else Min(o.n, |data|);
    }
  }

  /**
    unix_writev_buffer: short writes are continued until every byte of the vector is out, in
    order, or a write fails, and then a part of it from the front is out.
   */
  method UnixWritev(iov0: Iov, script: seq<Wrote>) returns (sent: seq<u8>, ret: int)
    ensures ret >= 0 ==> sent == Flatten(iov0) && ret == |sent|
    ensures ret < 0 ==> IsPrefix(sent, Flatten(iov0))
    ensures (forall i :: 0 <= i < |script| ==> !script[i].Failed?) ==> ret >= 0
  {
    var iov, offset, size, left := iov0, 0, |Flatten(iov0)|, script;
    sent, ret := [], 0;
    while size > 0
      invariant 0 <= size && offset + size == |Flatten(iov)| && sent + Flatten(iov)[offset..] == Flatten(iov0)
      invariant ret == |sent|
      invariant (forall i :: 0 <= i < |script| ==> !script[i].Failed?) ==>
        forall i :: 0 <= i < |left| ==> !left[i].Failed?
      decreases size
    {
      iov, offset := SkipFull(iov, offset);
      var first := iov[0][offset..];
      var data := Flatten([first] + iov[1..]);
      assert data == Flatten(iov)[offset..] by {
        assert ([first] + iov[1..])[1..] == iov[1..];
      }
      var len;
      len, left := WriteSome(data, left);
      if len < 0 {
        assert sent == Flatten(iov0)[..|sent|];
        return sent, len;
      }
      assert sent + Flatten(iov)[offset..] == sent + data[..len] + Flatten(iov)[offset + len..];
      sent := sent + data[..len];
      offset := offset + len;
      ret := ret + len;
      size := size - len;
    }
    assert Flatten(iov)[offset..] == [];
  }

  /** Whole elements that are out are passed over. */
  method SkipFull(iov0: Iov, offset0: nat) returns (iov: Iov, offset: nat)
    requires offset0 < |Flatten(iov0)|
    ensures iov != [] && offset < |iov[0]| && offset <= |Flatten(iov)|
    ensures Flatten(iov)[offset..] == Flatten(iov0)[offset0..]
  {
    iov, offset := iov0, offset0;
    while offset >= |iov[0]|
      invariant offset < |Flatten(iov)| && iov != [] && Flatten(iov)[offset..] == Flatten(iov0)[offset0..]
      decreases |iov|
    {
      assert Flatten(iov) == iov[0] + Flatten(iov[1..]);
      offset := offset - |iov[0]|;
      iov := iov[1..];
    }
  }

  /** How one backend read turns out: at most n bytes, or an error. */
  datatype Read = Got(n: nat) | Fault(error: nat)

  ghost predicate Reliable(script: seq<Read>) { forall i :: 0 <= i < |script| ==> script[i].Got? }

  predicate NextFails(script: seq<Read>) { script != [] && script[0].Fault? }

  function Tail(script: seq<Read>): seq<Read> { if script == [] then [] else script[1..] }

  /** The error field after a read that got nothing: the first error stays, and EAGAIN is none. */
  function Recorded(last: int, len: int): int { if last == 0 && len != -EAGAIN then len else last }

  /** The next n bytes of the source, with zeros after its end. */
  function NextBytes(source: seq<u8>, at: nat, n: nat): (s: seq<u8>)
    ensures |s| == n
  {
    seq(n, i requires 0 <= i < n => if at + i < |source| then source[at + i] else 0)
  }

  class Reader {
    const source: seq<u8>
    const buf: array<u8>
    var bufIndex: nat
    var bufSize: nat
    var pos: nat
    var lastError: int
    var script: seq<Read>

    /** The position in the source of the next byte to be delivered. */
    ghost function At(): int
      reads this
    {
      pos - (bufSize - bufIndex)
    }

    ghost predicate Valid()
      reads this, buf
    {
      && buf.Length == IO_BUF_SIZE && bufIndex <= bufSize <= IO_BUF_SIZE && 0 <= At() && pos <= |source|
      && buf[bufIndex..bufSize] == source[At()..pos]
    }

    constructor (source: seq<u8>, script: seq<Read>)
      ensures Valid() && At() == 0 && this.source == source && this.script == script && lastError == 0 && fresh(buf)
    {
      this.source := source;
      this.script := script;
      buf := new u8[IO_BUF_SIZE](_ => 0);
      bufIndex, bufSize, pos, lastError := 0, 0, 0, 0;
    }

    /** The backend: an error, or at least one byte if there is one and one is wanted, at most `want`. */
    method Receive(want: nat) returns (len: int)
      requires pos <= |source|
      modifies this`script
      ensures script == Tail(old(script))
      ensures if NextFails(old(script)) then len == -1 - old(script)[0].error
              else 0 <= len <= want && pos + len <= |source| && (len == 0 <==> want == 0 || pos == |source|)
    {
      len := Min(want, |source| - pos);
      if script != [] {
        var r := script[0];
        script := script[1..];
        if r.Fault? {
          return -1 - r.error;
        }
        len := Min(if r.n == 0 then 1 else r.n, len);
      }
    }

    /** The undelivered bytes go to the front of the buffer. */
    method Compact()
      requires Valid()
      modifies this`bufIndex, this`bufSize, buf
      ensures Valid() && bufIndex == 0 && bufSize == old(bufSize - bufIndex) && At() == old(At())
    {
      var pending := bufSize - bufIndex;
      Move(pending);
      bufIndex := 0;
      bufSize := pending;
    }

    /** qemu_fill_buffer */
    method FillBuffer()
      requires Valid()
      modifies this`bufIndex, this`bufSize, this`pos, this`lastError, this`script, buf
      ensures Valid() && bufIndex == 0 && At() == old(At()) && script == Tail(old(script))
      ensures if NextFails(old(script)) then pos == old(pos) &&
        lastError == Recorded(old(lastError), -1 - old(script)[0].error)
              else if old(bufSize - bufIndex) == IO_BUF_SIZE || old(pos) == |source| then
                pos == old(pos) && lastError == Recorded(old(lastError), -EIO)
              else pos > old(pos) && lastError == old(lastError)
    {
      ghost var at := At();
      Compact();
      var pending := bufSize;
      var len := Receive(IO_BUF_SIZE - pending);
      if len > 0 {
        Append(pending, len, at);
        bufSize := bufSize + len;
        pos := pos + len;
      } else if len == 0 {
        SetError(-EIO);
      } else if len != -EAGAIN {
        SetError(len);
      }
    }

    /** qemu_file_set_error */
    method SetError(ret: int)
      modifies this`lastError
      ensures lastError == if old(lastError) == 0 then ret else old(lastError)
    {
      if lastError == 0 {
        lastError := ret;
      }
    }

    /** The memmove to the front of the buffer. */
    method Move(pending: nat)
      requires Valid() && pending == bufSize - bufIndex
      modifies buf
      ensures buf[..pending] == old(buf[bufIndex..bufSize])
    {
      ghost var held := buf[bufIndex..bufSize];
      var i := 0;
      while i < pending
        invariant 0 <= i <= pending && forall k :: 0 <= k < i ==> buf[k] == held[k]
        invariant forall k :: i <= k < pending ==> buf[bufIndex + k] == held[k]
      {
        buf[i] := buf[bufIndex + i];
        i := i + 1;
      }
      assert buf[..pending] == held;
    }

    /** The bytes that the backend delivered. */
    method Append(pending: nat, len: nat, ghost at: nat)
      requires buf.Length == IO_BUF_SIZE && pending + len <= IO_BUF_SIZE && pos + len <= |source|
      requires at + pending == pos && buf[..pending] == source[at..pos]
      modifies buf
      ensures buf[..pending + len] == source[at..pos + len]
    {
      ghost var was := buf[..pending];
      forall k | 0 <= k < len {
        buf[pending + k] := source[pos + k];
      }
      assert buf[..pending] == was;
      assert buf[..pending + len] == was + source[pos..pos + len];
      assert source[at..pos + len] == source[at..pos] + source[pos..pos + len];
    }

    /** The part of qemu_peek_buffer that gets more bytes if there are too few. */
    method FillUp(size: nat)
      requires Valid() && size > 0
      modifies this`bufIndex, this`bufSize, this`pos, this`lastError, this`script, buf
      ensures Valid() && At() == old(At())
      ensures Reliable(old(script)) ==> Reliable(script) && (bufIndex == bufSize ==> At() == |source|)
      ensures Reliable(old(script)) && old(At()) + size <= |source| && size <= IO_BUF_SIZE ==>
        lastError == old(lastError)
    {
      if bufSize - bufIndex < size {
        FillBuffer();
      }
    }

    /** qemu_peek_buffer and qemu_file_skip: some of the next bytes, at least one if there is one and no read fails. */
    method PeekSkip(size: nat) returns (data: seq<u8>)
      requires Valid() && size > 0
      modifies this`bufIndex, this`bufSize, this`pos, this`lastError, this`script, buf
      ensures Valid() && |data| <= size && At() == old(At()) + |data| && At() <= |source|
      ensures data == source[old(At())..At()]
      ensures Reliable(old(script)) ==> Reliable(script) && (data == [] ==> At() == |source|)
      ensures Reliable(old(script)) && old(At()) + size <= |source| && size <= IO_BUF_SIZE ==>
        lastError == old(lastError)
    {
      FillUp(size);
      data := Deliver(Min(bufSize - bufIndex, size));
    }

    /** Copies n bytes out of the buffer. */
    method Deliver(n: nat) returns (data: seq<u8>)
      requires Valid() && bufIndex + n <= bufSize
      modifies this`bufIndex
      ensures Valid() && |data| == n && At() == old(At()) + n && At() <= |source| && data == source[old(At())..At()]
    {
      data := buf[bufIndex..bufIndex + n];
      SliceSplit(buf[..], bufIndex, bufSize, n);
      SliceSplit(source, At(), pos, n);
      bufIndex := bufIndex + n;
    }

    /** qemu_get_buffer: the next bytes, as many as asked for unless the source ends or a read fails. */
    method GetBuffer(size: nat) returns (data: seq<u8>)
      requires Valid()
      modifies this`bufIndex, this`bufSize, this`pos, this`lastError, this`script, buf
      ensures Valid() && |data| <= size && At() == old(At()) + |data| && data == source[old(At())..At()]
      ensures Reliable(old(script)) ==> Reliable(script) && At() == Min(old(At()) + size, |source|)
      ensures Reliable(old(script)) && old(At()) + size <= |source| && size <= IO_BUF_SIZE ==>
        lastError == old(lastError)
    {
      data := [];
      ghost var at, reliable := At(), Reliable(script);
      var pending := size;
      while pending > 0
        invariant 0 <= pending <= size && Valid() && |data| == size - pending && At() == at + |data|
        invariant data == source[at..At()]
        invariant reliable ==> Reliable(script)
        invariant reliable && at + size <= |source| && size <= IO_BUF_SIZE ==> lastError == old(lastError)
      {
        var more := PeekSkip(pending);
        if more == [] {
          return;
        }
        assert source[at..At()] == source[at..at + |data|] + source[at + |data|..At()];
        data := data + more;
        pending := pending - |more|;
      }
    }

    /** qemu_get_byte: the next byte, or 0 if the source has ended or the read failed. */
    method GetByte() returns (v: u8)
      requires Valid()
      modifies this`bufIndex, this`bufSize, this`pos, this`lastError, this`script, buf
      ensures Valid()
      ensures if At() == old(At()) then v == 0 else At() == old(At()) + 1 && At() <= |source| && v == source[old(At())]
      ensures Reliable(old(script)) ==> Reliable(script) && (At() == old(At()) <==> old(At()) == |source|)
      ensures At() > old(At()) && Reliable(old(script)) ==> lastError == old(lastError)
    {
      if bufIndex >= bufSize {
        FillBuffer();
        if bufIndex >= bufSize {
          return 0;
        }
      }
      v := buf[bufIndex];
      assert buf[bufIndex..bufSize][0] == source[At()..pos][0];
      assert buf[bufIndex + 1..bufSize] == buf[bufIndex..bufSize][1..];
      bufIndex := bufIndex + 1;
    }

    /** qemu_get_be16 */
    method GetBe16() returns (r: nat)
      requires Valid()
      modifies this`bufIndex, this`bufSize, this`pos, this`lastError, this`script, buf
      ensures Valid() && r < 0x1_0000 && old(At()) <= At() <= old(At()) + 2
      ensures Reliable(old(script)) ==>
        Reliable(script) && r == FromBe(NextBytes(source, old(At()), 2)) && At() == Min(old(At()) + 2, |source|)
      ensures Reliable(old(script)) && old(At()) + 2 <= |source| ==> lastError == old(lastError)
    {
      ghost var s := NextBytes(source, At(), 2);
      var hi := GetByte();
      var lo := GetByte();
      r := hi as nat * 256 + lo as nat;
      if Reliable(old(script)) {
        assert hi == s[0] && lo == s[1];
        FromBeTwo(s);
      }
    }

    /** qemu_get_be32 */
    method GetBe32() returns (r: nat)
      requires Valid()
      modifies this`bufIndex, this`bufSize, this`pos, this`lastError, this`script, buf
      ensures Valid() && r < 0x1_0000_0000 && old(At()) <= At() <= old(At()) + 4
      ensures Reliable(old(script)) ==>
        Reliable(script) && r == FromBe(NextBytes(source, old(At()), 4)) && At() == Min(old(At()) + 4, |source|)
      ensures Reliable(old(script)) && old(At()) + 4 <= |source| ==> lastError == old(lastError)
    {
      ghost var s := NextBytes(source, At(), 4);
      var a := GetByte();
      var b := GetByte();
      var c := GetByte();
      var d := GetByte();
      r := a as nat * 0x100_0000 + b as nat * 0x1_0000 + c as nat * 256 + d as nat;
      if Reliable(old(script)) {
        assert a == s[0] && b == s[1] && c == s[2] && d == s[3];
        FromBeFour(s);
      }
    }

    /** qemu_get_be64 */
    method GetBe64() returns (r: nat)
      requires Valid()
      modifies this`bufIndex, this`bufSize, this`pos, this`lastError, this`script, buf
      ensures Valid() && r < TWO64 && old(At()) <= At() <= old(At()) + 8
      ensures Reliable(old(script)) ==>
        Reliable(script) && r == FromBe(NextBytes(source, old(At()), 8)) && At() == Min(old(At()) + 8, |source|)
      ensures Reliable(old(script)) && old(At()) + 8 <= |source| ==> lastError == old(lastError)
    {
      ghost var at := At();
      var a := GetBe32();
      ghost var mid := At();
      var b := GetBe32();
      r := a * 0x1_0000_0000 + b;
      if Reliable(old(script)) {
        NextHalves(source, at, mid);
        FromBeHalves(NextBytes(source, at, 4), NextBytes(source, mid, 4));
      }
    }
  }

  lemma FromBeTwo(s: seq<u8>)
    requires |s| == 2
    ensures FromBe(s) == s[0] as int * 256 + s[1]
  {
    assert s[..1] == [s[0]] && FromBe([s[0]]) == FromBe([s[0]][..0]) * 256 + s[0];
  }

  lemma FromBeFour(s: seq<u8>)
    requires |s| == 4
    ensures FromBe(s) == s[0] as int * 0x100_0000 + s[1] as int * 0x1_0000 + s[2] as int * 256 + s[3]
  {
    FromBeTwo(s[..2]);
    assert s[..3][..2] == s[..2] && s[..3][2] == s[2];
    assert FromBe(s[..3]) == FromBe(s[..2]) * 256 + s[2];
    assert FromBe(s) == FromBe(s[..3]) * 256 + s[3];
  }

  lemma {:induction false} FromBeAppend(a: seq<u8>, b: seq<u8>)
    ensures FromBe(a + b) == FromBe(a) * Pow256(|b|) + FromBe(b)
    decreases |b|
  {
    if b == [] {
      assert a + b == a;
    } else {
      var n := |b| - 1;
      FromBeAppend(a, b[..n]);
      assert (a + b)[..|a + b| - 1] == a + b[..n];
      var p, x, y := Pow256(n), FromBe(a), FromBe(b[..n]);
      ShiftOne(x, p, y, b[n]);
    }
  }

  lemma ShiftOne(x: nat, p: nat, y: nat, b: nat)
    ensures (x * p + y) * 256 + b == x * (256 * p) + (y * 256 + b)
  {
  }

  lemma FromBeHalves(a: seq<u8>, b: seq<u8>)
    requires |a| == 4 && |b| == 4
    ensures FromBe(a + b) == FromBe(a) * 0x1_0000_0000 + FromBe(b)
  {
    FromBeAppend(a, b);
    assert Pow256(4) == 0x1_0000_0000;
  }

  lemma NextHalves(source: seq<u8>, at: nat, mid: nat)
    requires at <= |source| && mid == Min(at + 4, |source|)
    ensures NextBytes(source, at, 8) == NextBytes(source, at, 4) + NextBytes(source, mid, 4)
  {
  }

  lemma SliceSplit(s: seq<u8>, i: nat, j: nat, n: nat)
    requires i + n <= j <= |s|
    ensures s[i..i + n] == s[i..j][..n] && s[i + n..j] == s[i..j][n..]
  {
  }
}
