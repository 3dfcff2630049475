/**
  Byte-granular access on top of sector access (bdrv_pread and bdrv_pwrite in block.c).  Any
  sector operation may fail, and a failed write may have stored any of its bytes.
 */
module BlockBytes {
  import opened Bytes

  const SECTOR: nat := 512
  const EIO: int := 5

  /** How the next sector operation turns out: a failure reports an error and stores the bytes in `stored`. */
  datatype Outcome = Fine | Fails(error: nat, stored: set<nat>)

  ghost predicate NoFaults(script: seq<Outcome>) { forall i :: 0 <= i < |script| ==> script[i] == Fine }

  function Splice(data: seq<u8>, offset: nat, buf: seq<u8>): seq<u8>
    requires offset + |buf| <= |data|
  {
    data[..offset] + buf + data[offset + |buf|..]
  }

  /** Some bytes of buf have been stored at offset, and no other byte has changed. */
  ghost predicate PartlyWritten(data: seq<u8>, data': seq<u8>, offset: nat, buf: seq<u8>) {
    && |data'| == |data|
    && forall k :: 0 <= k < |data| ==>
         data'[k] == data[k] || (offset <= k < offset + |buf| && data'[k] == buf[k - offset])
  }

  function Partly(data: seq<u8>, offset: nat, buf: seq<u8>, stored: set<nat>): (r: seq<u8>)
    requires offset + |buf| <= |data|
    ensures PartlyWritten(data, r, offset, buf)
  {
    seq(|data|, k requires 0 <= k < |data| => if offset <= k < offset + |buf| && k in stored then buf[k - offset]
      else data[k])
  }

  lemma SpliceParts(data: seq<u8>, offset: nat, a: seq<u8>, b: seq<u8>)
    requires offset + |a| + |b| <= |data|
    ensures Splice(Splice(data, offset, a), offset + |a|, b) == Splice(data, offset, a + b)
  {
  }

  /** buf is what the disk holds at offset. */
  predicate ReadTo(data: seq<u8>, offset: nat, buf: seq<u8>) {
    |buf| > 0 ==> offset + |buf| <= |data| && buf == data[offset..offset + |buf|]
  }

  /** Two adjacent stretches of the data. */
  lemma Adjacent(data: seq<u8>, offset: nat, a: seq<u8>, b: seq<u8>)
    requires offset + |a| + |b| <= |data| && ReadTo(data, offset, a)
    requires b == data[offset + |a|..offset + |a| + |b|]
    ensures a + b == data[offset..offset + |a + b|]
  {
  }

  lemma SpliceRead(data: seq<u8>, offset: nat, buf: seq<u8>)
    requires offset + |buf| <= |data|
    ensures Splice(data, offset, buf)[offset..offset + |buf|] == buf
    ensures forall k :: 0 <= k < |data| && !(offset <= k < offset + |buf|) ==> Splice(data, offset, buf)[k] == data[k]
  {
  }

  /** A sector that is read, changed and written back: only the changed bytes can differ. */
  lemma PartOfSector(data: seq<u8>, data': seq<u8>, s: nat, o: nat, buf: seq<u8>, sector: seq<u8>)
    requires s + SECTOR <= |data| && o + |buf| <= SECTOR && sector == Splice(data[s..s + SECTOR], o, buf)
    requires PartlyWritten(data, data', s, sector)
    ensures PartlyWritten(data, data', s + o, buf)
  {
    forall k | 0 <= k < |data| ensures data'[k] == data[k] || (s + o <= k < s + o + |buf| &&
      data'[k] == buf[k - (s + o)]) {
      if s <= k < s + SECTOR {
        assert data[s..s + SECTOR][k - s] == data[k];
        assert o <= k - s < o + |buf| ==> sector[k - s] == buf[k - s - o];
        assert !(o <= k - s < o + |buf|) ==> sector[k - s] == data[k];
      }
    }
  }

  lemma WholeSector(data: seq<u8>, s: nat, o: nat, buf: seq<u8>)
    requires s + SECTOR <= |data| && o + |buf| <= SECTOR
    ensures Splice(data, s, Splice(data[s..s + SECTOR], o, buf)) == Splice(data, s + o, buf)
  {
    var sector := Splice(data[s..s + SECTOR], o, buf);
    var a, b := Splice(data, s, sector), Splice(data, s + o, buf);
    assert |a| == |b| == |data|;
    forall k | 0 <= k < |data| ensures a[k] == b[k] {
      if s <= k < s + SECTOR {
        assert a[k] == sector[k - s];
        assert data[s..s + SECTOR][k - s] == data[k];
      }
    }
  }

  /** A part of a sector that was read. */
  lemma InSector(data: seq<u8>, tmp: seq<u8>, sector: nat, offset: nat, len: nat)
    requires (sector + 1) * SECTOR <= |data| && tmp == data[sector * SECTOR..(sector + 1) * SECTOR]
    requires sector == offset / SECTOR && offset % SECTOR + len <= SECTOR
    ensures offset + len <= |data| && tmp[offset % SECTOR..offset % SECTOR + len] == data[offset..offset + len]
  {
    var lo, o := sector * SECTOR, offset % SECTOR;
    assert offset == lo + o;
    var part, whole := tmp[o..o + len], data[offset..offset + len];
    forall k | 0 <= k < len ensures part[k] == whole[k] {
      assert tmp[o + k] == data[lo + (o + k)];
    }
  }

  class BlockDevice {
    var data: seq<u8>
    var script: seq<Outcome>

    predicate Valid()
      reads this
    {
      |data| % SECTOR == 0
    }

    /** bdrv_read */
    method ReadSectors(sector: nat, n: nat) returns (ret: int, buf: seq<u8>)
      requires Valid()
      modifies this`script
      ensures ret >= 0 ==> (sector + n) * SECTOR <= |data| && buf == data[sector * SECTOR..(sector + n) * SECTOR]
      ensures old(NoFaults(script)) ==> NoFaults(script) && (ret >= 0 <==> (sector + n) * SECTOR <= |data|)
      ensures (sector + n) * SECTOR <= |data| ==>
        && (ret < 0 <==> old(script) != [] && old(script)[0].Fails?)
        && script == if old(script) == [] then [] else old(script)[1..]
    {
      if (sector + n) * SECTOR > |data| {
        return -EIO, [];
      }
      if script != [] {
        var f := script[0];
        script := script[1..];
        if f.Fails? {
          return -1 - f.error, [];
        }
      }
      ret, buf := 0, data[sector * SECTOR..(sector + n) * SECTOR];
    }

    /** bdrv_write */
    method WriteSectors(sector: nat, buf: seq<u8>) returns (ret: int)
      requires Valid() && |buf| % SECTOR == 0
      modifies this
      ensures Valid() && |data| == |old(data)|
      ensures ret >= 0 ==> sector * SECTOR + |buf| <= |data| && data == Splice(old(data), sector * SECTOR, buf)
      ensures ret < 0 ==> PartlyWritten(old(data), data, sector * SECTOR, buf)
      ensures old(NoFaults(script)) ==> NoFaults(script) && (ret >= 0 <==> sector * SECTOR + |buf| <= |data|)
      ensures sector * SECTOR + |buf| <= |data| ==>
        && (ret < 0 <==> old(script) != [] && old(script)[0].Fails?)
        && script == if old(script) == [] then [] else old(script)[1..]
    {
      if sector * SECTOR + |buf| > |data| {
        return -EIO;
      }
      if script != [] {
        var f := script[0];
        script := script[1..];
        if f.Fails? {
          data := Partly(data, sector * SECTOR, buf, f.stored);
          return -1 - f.error;
        }
      }
      data := Splice(data, sector * SECTOR, buf);
      ret := 0;
    }

    /** A part of one sector is read, changed and written back. */
    method Patch(sector: nat, o: nat, buf: seq<u8>) returns (ret: int)
      requires Valid() && o + |buf| <= SECTOR
      modifies this
      ensures Valid() && |data| == |old(data)|
      ensures ret >= 0 ==> (sector + 1) * SECTOR <= |data| && data == Splice(old(data), sector * SECTOR + o, buf)
      ensures ret < 0 ==> PartlyWritten(old(data), data, sector * SECTOR + o, buf)
      ensures old(NoFaults(script)) ==> NoFaults(script) && (ret >= 0 <==> (sector + 1) * SECTOR <= |data|)
    {
      var tmp;
      ret, tmp := ReadSectors(sector, 1);
      if ret < 0 {
        return;
      }
      tmp := Splice(tmp, o, buf);
      ret := WriteSectors(sector, tmp);
      if ret >= 0 {
        WholeSector(old(data), sector * SECTOR, o, buf);
      } else {
        PartOfSector(old(data), data, sector * SECTOR, o, buf, tmp);
      }
    }

    /**
      bdrv_pwrite: on success exactly the bytes of the range are replaced; on failure no byte
      outside it changes and every byte in it is the old or the new one.
     */
    method Pwrite(offset: nat, buf: seq<u8>) returns (ret: int)
      requires Valid()
      modifies this
      ensures Valid() && |data| == |old(data)|
      ensures ret >= 0 && buf != [] ==> offset + |buf| <= |data|
      ensures ret >= 0 ==>
        ret == |buf| && (if buf == [] then data == old(data) else data == Splice(old(data), offset, buf))
      ensures ret < 0 ==> PartlyWritten(old(data), data, offset, buf)
      ensures old(NoFaults(script)) && offset + |buf| <= |data| ==> ret >= 0
    {
      var len := (SECTOR - offset % SECTOR) % SECTOR;
      if len > |buf| {
        len := |buf|;
      }
      var sector := offset / SECTOR;
      var done := 0;
      if len > 0 {
        ret := Patch(sector, offset % SECTOR, buf[..len]);
        if ret < 0 {
          PartAfter(old(data), data, offset, buf, 0, len);
          return;
        }
        done := len;
        if done == |buf| {
          assert buf[..len] == buf;
          return |buf|;
        }
        sector := sector + 1;
      }
      ret := WriteRest(sector, buf, offset, done, old(data));
    }

    /** The aligned part of bdrv_pwrite: whole sectors, then the last one. */
    method WriteRest(sector0: nat, buf: seq<u8>, ghost offset: nat, done0: nat, ghost was: seq<u8>) returns (ret: int)
      requires Valid() && done0 <= |buf| && |was| == |data| && WrittenTo(was, data, offset, buf, done0)
      requires done0 < |buf| ==> sector0 * SECTOR == offset + done0
      modifies this
      ensures Valid() && |data| == |was|
      ensures ret >= 0 ==> ret == |buf| && WrittenTo(was, data, offset, buf, |buf|)
      ensures ret < 0 ==> PartlyWritten(was, data, offset, buf)
      ensures old(NoFaults(script)) && offset + |buf| <= |data| ==> ret >= 0
    {
      var n := (|buf| - done0) / SECTOR;
      var done := done0 + n * SECTOR;
      ret := WriteWhole(sector0, buf, offset, done0, n, was);
      if ret < 0 {
        return;
      }
      if done < |buf| {
        ret := WriteLast(sector0 + n, buf, offset, done, was);
        if ret < 0 {
          return;
        }
      }
      return |buf|;
    }

    /** The data for the last sector. */
    method WriteLast(sector: nat, buf: seq<u8>, ghost offset: nat, done: nat, ghost was: seq<u8>) returns (ret: int)
      requires Valid() && done < |buf| < done + SECTOR && |was| == |data| && WrittenTo(was, data, offset, buf, done)
      requires sector * SECTOR == offset + done
      modifies this
      ensures Valid() && |data| == |was|
      ensures ret >= 0 ==> WrittenTo(was, data, offset, buf, |buf|)
      ensures ret < 0 ==> PartlyWritten(was, data, offset, buf)
      ensures old(NoFaults(script)) && offset + |buf| <= |data| ==> ret >= 0
    {
      ghost var d1 := data;
      ret := Patch(sector, 0, buf[done..]);
      assert buf[done..] == buf[done..|buf|];
      WrittenMore(was, d1, data, offset, buf, done, |buf|, ret >= 0);
    }

    /** The sectors written "in place". */
    method WriteWhole(sector: nat, buf: seq<u8>, ghost offset: nat, done: nat, n: nat, ghost was: seq<u8>)
      returns (ret: int)
      requires Valid() && done + n * SECTOR <= |buf| && |was| == |data| && WrittenTo(was, data, offset, buf, done)
      requires n > 0 ==> sector * SECTOR == offset + done
      modifies this
      ensures Valid() && |data| == |was|
      ensures ret >= 0 ==> WrittenTo(was, data, offset, buf, done + n * SECTOR)
      ensures ret < 0 ==> PartlyWritten(was, data, offset, buf)
      ensures old(NoFaults(script)) ==> NoFaults(script) && (offset + |buf| <= |data| ==> ret >= 0)
    {
      ret := 0;
      if n > 0 {
        ghost var d1 := data;
        ret := WriteSectors(sector, buf[done..done + n * SECTOR]);
        WrittenMore(was, d1, data, offset, buf, done, done + n * SECTOR, ret >= 0);
      }
    }

    /** bdrv_pread: on success the bytes of the range. */
    method Pread(offset: nat, count: nat) returns (ret: int, buf: seq<u8>)
      requires Valid()
      modifies this`script
      ensures ret >= 0 ==>
        ret == count && (count > 0 ==> offset + count <= |data| && buf == data[offset..offset + count])
      ensures old(NoFaults(script)) && offset + count <= |data| ==> ret >= 0
    {
      var len := (SECTOR - offset % SECTOR) % SECTOR;
      if len > count {
        len := count;
      }
      var sector := offset / SECTOR;
      buf := [];
      var tmp;
      if len > 0 {
        ret, tmp := ReadSectors(sector, 1);
        if ret < 0 {
          return;
        }
        buf := tmp[offset % SECTOR..offset % SECTOR + len];
        InSector(data, tmp, sector, offset, len);
        if len == count {
          return count, buf;
        }
        sector := sector + 1;
      }
      ret, buf := ReadRest(sector, offset, count, buf);
    }

    /** The aligned part of bdrv_pread. */
    method ReadRest(sector: nat, ghost offset: nat, count: nat, buf0: seq<u8>) returns (ret: int, buf: seq<u8>)
      requires Valid() && |buf0| <= count && ReadTo(data, offset, buf0)
      requires |buf0| < count ==> sector * SECTOR == offset + |buf0|
      modifies this`script
      ensures ret >= 0 ==>
        ret == count && (count > 0 ==> offset + count <= |data| && buf == data[offset..offset + count])
      ensures old(NoFaults(script)) && offset + count <= |data| ==> ret >= 0
    {
      var n := (count - |buf0|) / SECTOR;
      ret, buf := ReadWhole(sector, offset, buf0, n);
      if ret < 0 {
        return;
      }
      if count > |buf| {
        ret, buf := ReadLast(sector + n, offset, count, buf);
        if ret < 0 {
          return;
        }
      }
      ret := count;
    }

    /** The sectors read "in place". */
    method ReadWhole(sector: nat, ghost offset: nat, buf0: seq<u8>, n: nat) returns (ret: int, buf: seq<u8>)
      requires Valid() && ReadTo(data, offset, buf0) && (n > 0 ==> sector * SECTOR == offset + |buf0|)
      modifies this`script
      ensures ret >= 0 ==> |buf| == |buf0| + n * SECTOR && ReadTo(data, offset, buf)
      ensures old(NoFaults(script)) ==> NoFaults(script) && (offset + |buf0| + n * SECTOR <= |data| ==> ret >= 0)
    {
      ret, buf := 0, buf0;
      if n > 0 {
        var tmp;
        ret, tmp := ReadSectors(sector, n);
        if ret < 0 {
          return;
        }
        Adjacent(data, offset, buf, tmp);
        buf := buf + tmp;
      }
    }

    /** The data from the last sector. */
    method ReadLast(sector: nat, ghost offset: nat, count: nat, buf0: seq<u8>) returns (ret: int, buf: seq<u8>)
      requires Valid() && |buf0| < count < |buf0| + SECTOR && ReadTo(data, offset, buf0)
      requires sector * SECTOR == offset + |buf0|
      modifies this`script
      ensures ret >= 0 ==> |buf| == count && ReadTo(data, offset, buf)
      ensures old(NoFaults(script)) && offset + count <= |data| ==> ret >= 0
    {
      var tmp;
      buf := buf0;
      ret, tmp := ReadSectors(sector, 1);
      if ret < 0 {
        return;
      }
      var k := count - |buf|;
      assert tmp[..k] == data[offset + |buf|..offset + |buf| + k];
      Adjacent(data, offset, buf, tmp[..k]);
      buf := buf + tmp[..k];
    }

    /** What bdrv_pwrite stores, a following bdrv_pread returns. */
    method WriteThenRead(offset: nat, buf: seq<u8>) returns (ret: int, got: seq<u8>)
      requires Valid() && buf != []
      modifies this
      ensures Valid() && (ret >= 0 ==> got == buf)
    {
      ret := Pwrite(offset, buf);
      got := [];
      if ret >= 0 {
        SpliceRead(old(data), offset, buf);
        ret, got := Pread(offset, |buf|);
      }
    }
  }

  /** The first n bytes of buf have been written at offset. */
  ghost predicate WrittenTo(was: seq<u8>, data: seq<u8>, offset: nat, buf: seq<u8>, n: nat) {
    n <= |buf| && (n == 0 ==> data == was) && (n > 0 ==> offset + n <= |was| && data == Splice(was, offset, buf[..n]))
  }

  lemma PartAfter(was: seq<u8>, data: seq<u8>, offset: nat, buf: seq<u8>, n: nat, m: nat)
    requires n <= m <= |buf| && PartlyWritten(was, data, offset + n, buf[n..m])
    ensures PartlyWritten(was, data, offset, buf)
  {
  }

  /** The next stretch has been written, wholly or in part. */
  lemma WrittenMore(was: seq<u8>, d1: seq<u8>, data: seq<u8>, offset: nat, buf: seq<u8>, n: nat, m: nat, ok: bool)
    requires n < m <= |buf| && WrittenTo(was, d1, offset, buf, n) && |d1| == |was|
    requires ok ==> offset + m <= |was| && data == Splice(d1, offset + n, buf[n..m])
    requires !ok ==> PartlyWritten(d1, data, offset + n, buf[n..m])
    ensures ok ==> WrittenTo(was, data, offset, buf, m)
    ensures !ok ==> PartlyWritten(was, data, offset, buf)
  {
    assert buf[..n] + buf[n..m] == buf[..m];
    if ok {
      if n > 0 {
        SpliceParts(was, offset, buf[..n], buf[n..m]);
      } else {
        assert buf[n..m] == buf[..m];
      }
    }
  }
}
