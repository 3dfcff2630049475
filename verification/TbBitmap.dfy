/** The code bitmap of a page (translate-all.c): one bit for every byte that holds translated code. */
module TbBitmap {
  type byte = bv8

  /** Bit i of a byte. */
  predicate Bit(b: byte, i: nat)
    requires i < 8
  {
    (b >> i) & 1 == 1
  }

  predicate BitAt(tab: seq<byte>, o: nat)
    requires o < 8 * |tab|
  {
    Bit(tab[o / 8], o % 8)
  }

  /** The mask 0xff << i, cut to a byte. */
  function MaskFrom(i: nat): byte
    requires i < 8
  {
    0xff << i
  }

  lemma BitCases(i: nat)
    requires i < 8
    ensures i == 0 || i == 1 || i == 2 || i == 3 || i == 4 || i == 5 || i == 6 || i == 7
  {
  }

  lemma MaskFromBits(i: nat, j: nat)
    requires i < 8 && j < 8
    ensures Bit(MaskFrom(i), j) <==> i <= j
    ensures Bit(!MaskFrom(i), j) <==> j < i
  {
    BitCases(i);
    BitCases(j);
  }

  lemma OrBit(a: byte, b: byte, j: nat)
    requires j < 8
    ensures Bit(a | b, j) <==> Bit(a, j) || Bit(b, j)
  {
    if j == 0 {
    } else if j == 1 {
    } else if j == 2 {
    } else if j == 3 {
    } else if j == 4 {
    } else if j == 5 {
    } else if j == 6 {
    } else {
      assert j == 7;
    }
  }

  lemma AndBit(a: byte, b: byte, j: nat)
    requires j < 8
    ensures Bit(a & b, j) <==> Bit(a, j) && Bit(b, j)
  {
    if j == 0 {
    } else if j == 1 {
    } else if j == 2 {
    } else if j == 3 {
    } else if j == 4 {
    } else if j == 5 {
    } else if j == 6 {
    } else {
      assert j == 7;
    }
  }

  lemma FullBit(j: nat)
    requires j < 8
    ensures Bit(0xff, j)
  {
    BitCases(j);
  }

  lemma ZeroBit(j: nat)
    requires j < 8
    ensures !Bit(0, j)
  {
    BitCases(j);
  }

  /** The bits of byte k that lie in [start, end) are exactly those of mask. */
  ghost predicate Marks(mask: byte, k: nat, start: int, end: int) {
    forall j :: 0 <= j < 8 ==> (Bit(mask, j) <==> start <= 8 * k + j < end)
  }

  lemma FirstMask(start: nat, end: nat)
    requires start <= end
    ensures Marks(if start / 8 == end / 8 then MaskFrom(start % 8) & !MaskFrom(end % 8) else MaskFrom(start % 8),
                  start / 8, start, end)
  {
    forall j | 0 <= j < 8
      ensures Bit(MaskFrom(start % 8), j) <==> start <= 8 * (start / 8) + j
      ensures start / 8 == end / 8 ==>
        (Bit(MaskFrom(start % 8) & !MaskFrom(end % 8), j) <==> start <= 8 * (start / 8) + j < end)
    {
      MaskFromBits(start % 8, j);
      MaskFromBits(end % 8, j);
      AndBit(MaskFrom(start % 8), !MaskFrom(end % 8), j);
    }
  }

  lemma LastMask(start: nat, end: nat)
    requires start <= end / 8 * 8
    ensures Marks(!MaskFrom(end % 8), end / 8, start, end)
  {
    var mask := !MaskFrom(end % 8);
    forall j | 0 <= j < 8 ensures Bit(mask, j) <==> 8 * (end / 8) + j < end {
      MaskFromBits(end % 8, j);
    }
  }

  lemma FullMask(k: nat, start: nat, end: nat)
    requires start <= 8 * k && 8 * k + 8 <= end
    ensures Marks(0xff, k, start, end)
  {
    forall j | 0 <= j < 8 ensures Bit(0xff, j) {
      FullBit(j);
    }
  }

  /** tab' has the bits of tab and those of [start, end). */
  ghost predicate BitsSet(tab: seq<byte>, tab': seq<byte>, start: int, end: int) {
    |tab'| == |tab| && forall o :: 0 <= o < 8 * |tab| ==> (BitAt(tab', o) <==> BitAt(tab, o) || start <= o < end)
  }

  /** Every byte below k got the bits that [start, end) asks for; the others are as before. */
  ghost predicate DoneTo(tab: seq<byte>, tab': seq<byte>, k: nat, start: int, end: int) {
    && |tab'| == |tab|
    && (forall i :: k <= i < |tab| ==> tab'[i] == tab[i])
    && (forall o :: 0 <= o < 8 * |tab| && o / 8 < k ==> (BitAt(tab', o) <==> BitAt(tab, o) || start <= o < end))
  }

  lemma DoneStep(tab: seq<byte>, tab': seq<byte>, k: nat, v: byte, mask: byte, start: int, end: int)
    requires DoneTo(tab, tab', k, start, end) && k < |tab| && Marks(mask, k, start, end)
    requires v == tab[k] | mask || (v == 0xff && mask == 0xff)
    ensures DoneTo(tab, tab'[k := v], k + 1, start, end)
  {
    var t := tab'[k := v];
    forall o | 0 <= o < 8 * |tab| && o / 8 < k + 1 ensures BitAt(t, o) <==> BitAt(tab, o) || start <= o < end {
      if o / 8 == k {
        OrBit(tab[k], mask, o % 8);
        assert o == 8 * k + o % 8;
      } else {
        assert BitAt(t, o) == BitAt(tab', o);
      }
    }
  }

  lemma DoneStart(tab: seq<byte>, k: nat, start: int, end: int)
    requires 8 * k <= start
    ensures DoneTo(tab, tab, k, start, end)
  {
  }

  lemma DoneAll(tab: seq<byte>, tab': seq<byte>, k: nat, start: int, end: int)
    requires DoneTo(tab, tab', k, start, end) && end <= 8 * k
    ensures BitsSet(tab, tab', start, end)
  {
    forall o | 0 <= o < 8 * |tab| ensures BitAt(tab', o) <==> BitAt(tab, o) || start <= o < end {
      if o / 8 >= k {
        assert tab'[o / 8] == tab[o / 8];
      }
    }
  }

  /** One byte gets its bits. */
  method Store(tab: array<byte>, p: nat, v: byte, ghost was: seq<byte>, ghost mask: byte, ghost start: int,
               ghost end: int)
    requires DoneTo(was, tab[..], p, start, end) && p < tab.Length && Marks(mask, p, start, end)
    requires v == tab[p] | mask || (v == 0xff && mask == 0xff)
    modifies tab
    ensures DoneTo(was, tab[..], p + 1, start, end)
  {
    DoneStep(was, tab[..], p, v, mask, start, end);
    tab[p] := v;
  }

  /** set_bits */
  method SetBits(tab: array<byte>, from: nat, len: nat)
    requires from + len <= 8 * tab.Length
    modifies tab
    ensures BitsSet(old(tab[..]), tab[..], from, from + len)
  {
    var start := from;
    var end := start + len;
    ghost var was := tab[..];
    FirstMask(start, end);
    DoneStart(was, start / 8, start, end);
    var p := start / 8;
    var mask := MaskFrom(start % 8);
    if start / 8 == end / 8 {
      if start < end {
        mask := mask & !MaskFrom(end % 8);
        Store(tab, p, tab[p] | mask, was, mask, from, end);
      } else {
        assert DoneTo(was, tab[..], p + 1, from, end);
      }
      p := p + 1;
    } else {
      Store(tab, p, tab[p] | mask, was, mask, from, end);
      p := p + 1;
      start := (start + 8) / 8 * 8;
      p := FillBytes(tab, p, start, was, from, end);
      if p * 8 < end {
        mask := !MaskFrom(end % 8);
        LastMask(from, end);
        Store(tab, p, tab[p] | mask, was, mask, from, end);
        p := p + 1;
      }
    }
    DoneAll(was, tab[..], p, from, end);
  }

  /** The whole bytes in the middle. */
  method FillBytes(tab: array<byte>, first: nat, start0: nat, ghost was: seq<byte>, ghost from: nat, end: nat)
    returns (p: nat)
    requires start0 == 8 * first && from <= start0 <= end / 8 * 8 && end <= 8 * tab.Length
    requires DoneTo(was, tab[..], first, from, end)
    modifies tab
    ensures p == end / 8 && DoneTo(was, tab[..], p, from, end)
  {
    p := first;
    var start := start0;
    var end1 := end / 8 * 8;
    while start < end1
      invariant start == 8 * p && from <= start <= end1 && DoneTo(was, tab[..], p, from, end)
    {
      FullMask(p, from, end);
      Store(tab, p, 0xff, was, 0xff, from, end);
      p := p + 1;
      start := start + 8;
    }
  }

  /** The test of tb_invalidate_phys_page_fast on the byte that holds the access. */
  predicate AnyBit(b: byte, shift: nat, len: nat)
    requires shift < 8 && len <= 8
  {
    ((b as bv16) >> shift) & ((1 << len) - 1) != 0
  }

  predicate AccessSize(len: nat) { len == 1 || len == 2 || len == 4 || len == 8 }

  lemma ByteProbe1(b: byte, shift: nat)
    requires shift < 8
    ensures AnyBit(b, shift, 1) <==> Bit(b, shift)
  {
    BitCases(shift);
  }

  lemma ByteProbe2(b: byte, shift: nat)
    requires shift == 0 || shift == 2 || shift == 4 || shift == 6
    ensures AnyBit(b, shift, 2) <==> Bit(b, shift) || Bit(b, shift + 1)
  {
  }

  lemma ByteProbe4(b: byte, shift: nat)
    requires shift == 0 || shift == 4
    ensures AnyBit(b, shift, 4) <==> Bit(b, shift) || Bit(b, shift + 1) || Bit(b, shift + 2) || Bit(b, shift + 3)
  {
  }

  lemma ByteProbe8(b: byte)
    ensures AnyBit(b, 0, 8) <==>
      Bit(b, 0) || Bit(b, 1) || Bit(b, 2) || Bit(b, 3) || Bit(b, 4) || Bit(b, 5) || Bit(b, 6) || Bit(b, 7)
  {
  }

  lemma ByteProbe(b: byte, shift: nat, len: nat)
    requires shift < 8 && AccessSize(len) && shift % len == 0
    ensures shift + len <= 8
    ensures AnyBit(b, shift, len) <==> exists j :: shift <= j < shift + len && Bit(b, j)
  {
    BitCases(shift);
    if len == 1 {
      ByteProbe1(b, shift);
    } else if len == 2 {
      ByteProbe2(b, shift);
    } else if len == 4 {
      ByteProbe4(b, shift);
    } else {
      ByteProbe8(b);
    }
  }

  /** An aligned access lies in one byte of the bitmap, and the test sees exactly its bits. */
  lemma Probe(tab: seq<byte>, offset: nat, len: nat)
    requires AccessSize(len) && offset % len == 0 && offset + len <= 8 * |tab|
    ensures AnyBit(tab[offset / 8], offset % 8, len) <==> exists o :: offset <= o < offset + len && BitAt(tab, o)
  {
    var b := tab[offset / 8];
    assert offset % 8 % len == 0 by {
      assert offset == 8 * (offset / 8) + offset % 8;
    }
    ByteProbe(b, offset % 8, len);
    if j :| offset % 8 <= j < offset % 8 + len && Bit(b, j) {
      assert BitAt(tab, offset / 8 * 8 + j);
    }
    if o :| offset <= o < offset + len && BitAt(tab, o) {
      assert o / 8 == offset / 8;
      assert Bit(b, o % 8);
    }
  }
}
