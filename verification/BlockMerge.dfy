/**
  Merging of a batch of writes (multiwrite_merge in block.c, with the vector operations of
  util/iov.c): the batch is sorted, and neighbours that touch are combined into one request.
 */
module BlockMerge {
  import opened Bytes

  const SECTOR: nat := 512
  const IOV_MAX: nat := 1024

  // ----- Scatter lists -------------------------------------------------------

  type Iov = seq<seq<u8>>

  function Flatten(iov: Iov): seq<u8> { if iov == [] then [] else iov[0] + Flatten(iov[1..]) }

  lemma {:induction false} FlattenAppend(a: Iov, b: Iov)
    ensures Flatten(a + b) == Flatten(a) + Flatten(b)
  {
    if a == [] {
      assert a + b == b;
    } else {
      assert (a + b)[0] == a[0] && (a + b)[1..] == a[1..] + b;
      FlattenAppend(a[1..], b);
    }
  }

  lemma FlattenOne(b: seq<u8>)
    ensures Flatten([b]) == b
  {
    assert Flatten([b]) == b + Flatten([]);
  }

  function Min(a: nat, b: nat): nat { if a < b then a else b }

  /** The vectors that qemu_iovec_concat adds for the n bytes of iov from offset o on. */
  function Take(iov: Iov, o: nat, n: nat): Iov
    decreases |iov|
  {
    if n == 0 || iov == [] then []
    else if o < |iov[0]| then
      var len := Min(|iov[0]| - o, n);
      [iov[0][o..o + len]] + Take(iov[1..], 0, n - len)
    else Take(iov[1..], o - |iov[0]|, n)
  }

  /** At most n elements from offset o on. */
  function Slice(s: seq<u8>, o: nat, n: nat): seq<u8> { s[Min(o, |s|)..Min(o + n, |s|)] }

  lemma SliceAcross(a: seq<u8>, b: seq<u8>, o: nat, n: nat)
    requires o < |a|
    ensures var len := Min(|a| - o, n); Slice(a + b, o, n) == a[o..o + len] + Slice(b, 0, n - len)
  {
    var len := Min(|a| - o, n);
    var s, t := Slice(a + b, o, n), a[o..o + len] + Slice(b, 0, n - len);
    assert |s| == |t|;
    forall k | 0 <= k < |s| ensures s[k] == t[k] {
      assert s[k] == (a + b)[o + k];
    }
  }

  lemma SliceBeyond(a: seq<u8>, b: seq<u8>, o: nat, n: nat)
    requires |a| <= o
    ensures Slice(a + b, o, n) == Slice(b, o - |a|, n)
  {
    var s, t := Slice(a + b, o, n), Slice(b, o - |a|, n);
    assert |s| == |t|;
    forall k | 0 <= k < |s| ensures s[k] == t[k] {
      assert s[k] == (a + b)[o + k];
    }
  }

  lemma {:induction false} TakeBytes(iov: Iov, o: nat, n: nat)
    ensures Flatten(Take(iov, o, n)) == Slice(Flatten(iov), o, n)
    decreases |iov|
  {
    if n != 0 && iov != [] {
      if o < |iov[0]| {
        var len := Min(|iov[0]| - o, n);
        TakeBytes(iov[1..], 0, n - len);
        SliceAcross(iov[0], Flatten(iov[1..]), o, n);
        assert Take(iov, o, n)[1..] == Take(iov[1..], 0, n - len);
      } else {
        TakeBytes(iov[1..], o - |iov[0]|, n);
        SliceBeyond(iov[0], Flatten(iov[1..]), o, n);
      }
    }
  }

  /** What is to come is an element and what comes after it, or only the latter. */
  lemma NextElement(src: Iov, i: nat, o: nat, n: nat, r: Iov, whole: Iov)
    requires i < |src| && n > 0 && r + Take(src[i..], o, n) == whole
    ensures |Flatten(src[i..])| == |src[i]| + |Flatten(src[i + 1..])|
    ensures o >= |src[i]| ==> r + Take(src[i + 1..], o - |src[i]|, n) == whole
    ensures o < |src[i]| ==>
      var len := Min(|src[i]| - o, n);
      r + [src[i][o..o + len]] + Take(src[i + 1..], 0, n - len) == whole
  {
    assert src[i..][0] == src[i] && src[i..][1..] == src[i + 1..];
    if o < |src[i]| {
      var len := Min(|src[i]| - o, n);
      AppendOne(r, src[i][o..o + len], Take(src[i + 1..], 0, n - len));
    }
  }

  lemma NothingToCome(src: Iov, i: nat, o: nat, n: nat, r: Iov)
    requires i <= |src| && (n == 0 || i == |src|)
    ensures r + Take(src[i..], o, n) == r && (i == |src| ==> Flatten(src[i..]) == [])
  {
  }

  /** The loop of qemu_iovec_concat. */
  method ConcatLoop(dst: Iov, src: Iov, soffset: nat, sbytes: nat) returns (ok: bool, r: Iov)
    requires sbytes > 0
    ensures ok <==> soffset <= |Flatten(src)|
    ensures r == dst + Take(src, soffset, sbytes)
  {
    ghost var whole := dst + Take(src, soffset, sbytes);
    r := dst;
    var i, done: nat, o: nat := 0, 0, soffset;
    assert src[0..] == src;
    while done < sbytes && i < |src|
      invariant 0 <= i <= |src| && 0 <= done <= sbytes && (done > 0 ==> o == 0)
      invariant r + Take(src[i..], o, sbytes - done) == whole
      invariant soffset <= |Flatten(src)| <==> o <= |Flatten(src[i..])|
    {
      NextElement(src, i, o, sbytes - done, r, whole);
      if o < |src[i]| {
        var len := Min(|src[i]| - o, sbytes - done);
        r := r + [src[i][o..o + len]];
        done := done + len;
        o := 0;
      } else {
        o := o - |src[i]|;
      }
      i := i + 1;
    }
    NothingToCome(src, i, o, sbytes - done, r);
    ok := o == 0;
  }

  /** qemu_iovec_concat; it aborts iff there is something to add and the offset is beyond the end. */
  method Concat(dst: Iov, src: Iov, soffset: nat, sbytes: nat) returns (ok: bool, r: Iov)
    ensures ok <==> sbytes == 0 || soffset <= |Flatten(src)|
    ensures r == dst + Take(src, soffset, sbytes)
    ensures Flatten(r) == Flatten(dst) + Slice(Flatten(src), soffset, sbytes)
  {
    FlattenAppend(dst, Take(src, soffset, sbytes));
    TakeBytes(src, soffset, sbytes);
    if sbytes == 0 {
      assert dst + [] == dst;
      return true, dst;
    }
    ok, r := ConcatLoop(dst, src, soffset, sbytes);
  }

  lemma AppendOne(r: Iov, x: seq<u8>, rest: Iov)
    ensures r + ([x] + rest) == r + [x] + rest
  {
  }

  // ----- Requests ------------------------------------------------------------

  datatype Request = Request(sector: nat, nbSectors: nat, iov: Iov)

  function Data(r: Request): seq<u8> { Flatten(r.iov) }

  predicate WellFormed(r: Request) { |Data(r)| == r.nbSectors * SECTOR }

  function Start(r: Request): nat { r.sector * SECTOR }

  function End(r: Request): nat { (r.sector + r.nbSectors) * SECTOR }

  predicate Covers(r: Request, x: nat) { Start(r) <= x < End(r) }

  /** The byte at x after a write, if it was v before. */
  function Write(r: Request, x: nat, v: u8): u8
    requires WellFormed(r)
  {
    if Covers(r, x) then Data(r)[x - Start(r)] else v
  }

  predicate AllWellFormed(reqs: seq<Request>) { forall i :: 0 <= i < |reqs| ==> WellFormed(reqs[i]) }

  /** The byte at x after the whole batch, applied in order. */
  function Apply(reqs: seq<Request>, x: nat, v: u8): u8
    requires AllWellFormed(reqs)
  {
    if reqs == [] then v else Apply(reqs[1..], x, Write(reqs[0], x, v))
  }

  predicate Sorted(reqs: seq<Request>) { forall i, j :: 0 <= i < j < |reqs| ==> reqs[i].sector <= reqs[j].sector }

  ghost predicate CoveredBy(reqs: seq<Request>, x: nat) { exists i :: 0 <= i < |reqs| && Covers(reqs[i], x) }

  // ----- Merging -------------------------------------------------------------

  /** The driver's bdrv_merge_requests: may the gap between two requests be filled with zeros? */
  type Driver = (Request, Request) -> bool

  predicate CanMerge(drv: Driver, a: Request, b: Request) {
    (b.sector <= a.sector + a.nbSectors || drv(a, b)) && |a.iov| + |b.iov| + 1 <= IOV_MAX
  }

  function Zeros(n: nat): seq<u8> { seq(n, _ => 0) }

  /** The zero sectors between the two requests. */
  function Gap(a: Request, b: Request): Iov {
    if b.sector > a.sector + a.nbSectors then [Zeros((b.sector - a.sector - a.nbSectors) * SECTOR)] else []
  }

  function CombinedIov(a: Request, b: Request): Iov
    requires a.sector <= b.sector
  {
    Take(a.iov, 0, (b.sector - a.sector) * SECTOR) + Gap(a, b) + Take(b.iov, 0, |Data(b)|)
  }

  function Combine(a: Request, b: Request): Request
    requires a.sector <= b.sector
  {
    Request(a.sector, |Flatten(CombinedIov(a, b))| / SECTOR, CombinedIov(a, b))
  }

  /** The bytes of the merged request: the first one cut off where the second starts, zeros, the second. */
  lemma CombinedData(a: Request, b: Request)
    requires a.sector <= b.sector && WellFormed(a) && WellFormed(b)
    ensures var r := Combine(a, b);
      && Data(r) == Data(a)[..Min((b.sector - a.sector) * SECTOR, |Data(a)|)] + Flatten(Gap(a, b)) + Data(b)
      && WellFormed(r) && r.sector == a.sector && r.sector + r.nbSectors == b.sector + b.nbSectors
  {
    var n := (b.sector - a.sector) * SECTOR;
    TakeBytes(a.iov, 0, n);
    TakeBytes(b.iov, 0, |Data(b)|);
    assert Data(b)[..|Data(b)|] == Data(b);
    FlattenAppend(Take(a.iov, 0, n) + Gap(a, b), Take(b.iov, 0, |Data(b)|));
    FlattenAppend(Take(a.iov, 0, n), Gap(a, b));
    if b.sector > a.sector + a.nbSectors {
      FlattenOne(Zeros((b.sector - a.sector - a.nbSectors) * SECTOR));
    }
    assert |Data(Combine(a, b))| == (b.sector + b.nbSectors - a.sector) * SECTOR;
  }

  lemma CombinedWrite(a: Request, b: Request, x: nat, v: u8)
    requires a.sector <= b.sector && WellFormed(a) && WellFormed(b)
    ensures WellFormed(Combine(a, b)) && Start(Combine(a, b)) == Start(a) && End(Combine(a, b)) == End(b)
    ensures Write(Combine(a, b), x, v) ==
      if Covers(b, x) then Write(b, x, v) else if End(b) <= x then v else if End(a) <= x < Start(b) then 0
        else Write(a, x, v)
  {
    CombinedData(a, b);
    if b.sector > a.sector + a.nbSectors {
      FlattenOne(Zeros((b.sector - a.sector - a.nbSectors) * SECTOR));
    }
  }

  /** The loop of multiwrite_merge, with the request being built and those still to come. */
  function MergeFrom(drv: Driver, acc: Request, rest: seq<Request>): seq<Request>
    requires WellFormed(acc) && AllWellFormed(rest) && Sorted([acc] + rest)
    decreases |rest|
  {
    if rest == [] then [acc]
    else
      assert ([acc] + rest)[1] == rest[0];
      MergeNext(drv, acc, rest);
      if CanMerge(drv, acc, rest[0]) then MergeFrom(drv, Combine(acc, rest[0]), rest[1..])
      else [acc] + MergeFrom(drv, rest[0], rest[1..])
  }

  lemma MergeNext(drv: Driver, acc: Request, rest: seq<Request>)
    requires WellFormed(acc) && AllWellFormed(rest) && Sorted([acc] + rest) && rest != []
    ensures acc.sector <= rest[0].sector && WellFormed(Combine(acc, rest[0])) && WellFormed(rest[0])
    ensures AllWellFormed(rest[1..])
    ensures Sorted([Combine(acc, rest[0])] + rest[1..]) && Sorted([rest[0]] + rest[1..])
    ensures forall i :: 0 <= i < |rest| ==> rest[0].sector <= rest[i].sector
  {
    SortedTail(acc, rest);
    CombinedData(acc, rest[0]);
    SortedHead(acc, Combine(acc, rest[0]), rest);
  }

  lemma SortedTail(acc: Request, rest: seq<Request>)
    requires Sorted([acc] + rest) && rest != []
    ensures acc.sector <= rest[0].sector && Sorted([rest[0]] + rest[1..])
    ensures forall i :: 0 <= i < |rest| ==> rest[0].sector <= rest[i].sector
  {
    var s := [acc] + rest;
    assert s[0] == acc && s[1] == rest[0];
    assert forall i :: 0 <= i < |rest| ==> s[i + 1] == rest[i];
    assert [rest[0]] + rest[1..] == rest;
  }

  lemma SortedHead(acc: Request, acc': Request, rest: seq<Request>)
    requires Sorted([acc] + rest) && rest != [] && acc'.sector == acc.sector
    ensures Sorted([acc'] + rest[1..])
  {
    var s, s' := [acc] + rest, [acc'] + rest[1..];
    assert s[0] == acc && s'[0] == acc';
    assert forall i :: 0 < i < |s'| ==> s'[i] == s[i + 1];
  }

  lemma {:induction false} MergedWellFormed(drv: Driver, acc: Request, rest: seq<Request>)
    requires WellFormed(acc) && AllWellFormed(rest) && Sorted([acc] + rest)
    ensures AllWellFormed(MergeFrom(drv, acc, rest))
    decreases |rest|
  {
    if rest != [] {
      MergeNext(drv, acc, rest);
      if CanMerge(drv, acc, rest[0]) {
        MergedWellFormed(drv, Combine(acc, rest[0]), rest[1..]);
      } else {
        MergedWellFormed(drv, rest[0], rest[1..]);
      }
    }
  }

  // ----- What merging does to the disk ---------------------------------------

  /** Byte x lies in a gap that the merge fills with zeros. */
  predicate GapAt(drv: Driver, acc: Request, rest: seq<Request>, x: nat)
    requires WellFormed(acc) && AllWellFormed(rest) && Sorted([acc] + rest)
    decreases |rest|
  {
    rest != [] &&
      (MergeNext(drv, acc, rest);
       if CanMerge(drv, acc, rest[0]) then End(acc) <= x < Start(rest[0]) ||
         GapAt(drv, Combine(acc, rest[0]), rest[1..], x)
       else GapAt(drv, rest[0], rest[1..], x))
  }

  /** Byte x is cut off the first of two merged requests, and no later request writes it. */
  ghost predicate LostAt(drv: Driver, acc: Request, rest: seq<Request>, x: nat)
    requires WellFormed(acc) && AllWellFormed(rest) && Sorted([acc] + rest)
    decreases |rest|
  {
    rest != [] &&
      (MergeNext(drv, acc, rest);
       if CanMerge(drv, acc, rest[0]) then
         (End(rest[0]) <= x < End(acc) && !CoveredBy(rest[1..], x)) || LostAt(drv, Combine(acc, rest[0]), rest[1..], x)
       else LostAt(drv, rest[0], rest[1..], x))
  }

  /** A byte that a later request writes does not depend on what was there. */
  lemma {:induction false} Overwritten(reqs: seq<Request>, x: nat, v: u8, w: u8)
    requires AllWellFormed(reqs) && CoveredBy(reqs, x)
    ensures Apply(reqs, x, v) == Apply(reqs, x, w)
  {
    if !Covers(reqs[0], x) {
      var i :| 0 <= i < |reqs| && Covers(reqs[i], x);
      assert reqs[1..][i - 1] == reqs[i];
      Overwritten(reqs[1..], x, v, w);
    }
  }

  lemma {:induction false} NotWritten(reqs: seq<Request>, x: nat, v: u8)
    requires AllWellFormed(reqs) && !CoveredBy(reqs, x)
    ensures Apply(reqs, x, v) == v
  {
    if reqs != [] {
      assert !Covers(reqs[0], x);
      assert forall i :: 0 <= i < |reqs[1..]| ==> !Covers(reqs[1..][i], x) by {
        assert forall i :: 0 <= i < |reqs[1..]| ==> reqs[1..][i] == reqs[i + 1];
      }
      NotWritten(reqs[1..], x, v);
    }
  }

  /** Requests that start after x leave it alone. */
  lemma LaterStart(reqs: seq<Request>, x: nat, v: u8)
    requires AllWellFormed(reqs) && forall i :: 0 <= i < |reqs| ==> x < Start(reqs[i])
    ensures !CoveredBy(reqs, x) && Apply(reqs, x, v) == v
  {
    NotWritten(reqs, x, v);
  }

  /** How combining two requests changes one byte, given what comes later. */
  lemma CombineStep(a: Request, b: Request, later: seq<Request>, x: nat, v: u8)
    requires WellFormed(a) && WellFormed(b) && AllWellFormed(later) && a.sector <= b.sector
    requires forall i :: 0 <= i < |later| ==> b.sector <= later[i].sector
    requires !(End(b) <= x < End(a) && !CoveredBy(later, x))
    ensures WellFormed(Combine(a, b))
    ensures End(a) <= x < Start(b) ==> Apply(later, x, Write(Combine(a, b), x, v)) == 0
    ensures !(End(a) <= x < Start(b)) ==>
      Apply(later, x, Write(Combine(a, b), x, v)) == Apply(later, x, Write(b, x, Write(a, x, v)))
  {
    CombinedWrite(a, b, x, v);
    if End(a) <= x < Start(b) {
      LaterStart(later, x, 0);
    } else if End(b) <= x < End(a) {
      Overwritten(later, x, Write(Combine(a, b), x, v), Write(b, x, Write(a, x, v)));
    }
  }

  lemma ApplyTwo(a: Request, rest: seq<Request>, x: nat, v: u8)
    requires WellFormed(a) && AllWellFormed(rest)
    ensures AllWellFormed([a] + rest) && Apply([a] + rest, x, v) == Apply(rest, x, Write(a, x, v))
  {
    assert ([a] + rest)[1..] == rest;
  }

  /** Every byte that is not lost gets the value that the sorted batch gives it, or zero in a filled gap. */
  lemma {:induction false} MergePreserves(drv: Driver, acc: Request, rest: seq<Request>, x: nat, v: u8)
    requires WellFormed(acc) && AllWellFormed(rest) && Sorted([acc] + rest) && !LostAt(drv, acc, rest, x)
    ensures AllWellFormed(MergeFrom(drv, acc, rest)) && AllWellFormed([acc] + rest)
    ensures Apply(MergeFrom(drv, acc, rest), x, v) == if GapAt(drv, acc, rest, x) then 0 else Apply([acc] + rest, x, v)
    decreases |rest|
  {
    MergedWellFormed(drv, acc, rest);
    ApplyTwo(acc, rest, x, v);
    if rest != [] {
      MergeNext(drv, acc, rest);
      var b, later := rest[0], rest[1..];
      if CanMerge(drv, acc, b) {
        MergePreserves(drv, Combine(acc, b), later, x, v);
        ApplyTwo(Combine(acc, b), later, x, v);
        CombineStep(acc, b, later, x, v);
      } else {
        MergePreserves(drv, b, later, x, Write(acc, x, v));
        ApplyTwo(acc, MergeFrom(drv, b, later), x, v);
        ApplyTwo(b, later, x, Write(acc, x, v));
      }
    }
  }

  // ----- Exactly when the meaning is kept ------------------------------------

  /** The requests that write x write different values there, none of them v or zero. */
  ghost predicate Telling(reqs: seq<Request>, x: nat, v: u8)
    requires AllWellFormed(reqs)
  {
    && (forall i :: 0 <= i < |reqs| && Covers(reqs[i], x) ==> Write(reqs[i], x, 0) != 0 && Write(reqs[i], x, 0) != v)
    && (forall i, j :: 0 <= i < j < |reqs| && Covers(reqs[i], x) && Covers(reqs[j], x) ==>
          Write(reqs[i], x, 0) != Write(reqs[j], x, 0))
  }

  lemma TellingTail(acc: Request, rest: seq<Request>, x: nat, v: u8)
    requires WellFormed(acc) && AllWellFormed(rest) && AllWellFormed([acc] + rest) && Telling([acc] + rest, x, v)
    ensures Telling(rest, x, Write(acc, x, v)) && Telling(rest, x, v)
  {
    var s := [acc] + rest;
    assert s[0] == acc && forall i :: 0 <= i < |rest| ==> s[i + 1] == rest[i];
  }

  /** The first request may be replaced by one that writes the same byte, or none, at x. */
  lemma TellingHead(acc: Request, acc': Request, rest: seq<Request>, x: nat, v: u8)
    requires WellFormed(acc) && WellFormed(acc') && AllWellFormed(rest) && AllWellFormed([acc] + rest)
    requires Telling([acc] + rest, x, v)
    requires Covers(acc', x) ==> Covers(acc, x) && Write(acc', x, 0) == Write(acc, x, 0)
    ensures AllWellFormed([acc'] + rest) && Telling([acc'] + rest, x, v)
  {
    var s, s' := [acc] + rest, [acc'] + rest;
    assert s[0] == acc && s'[0] == acc';
    assert forall i :: 0 < i < |s| ==> s'[i] == s[i];
  }

  lemma {:induction false} LostIsLate(drv: Driver, acc: Request, rest: seq<Request>, x: nat)
    requires WellFormed(acc) && AllWellFormed(rest) && Sorted([acc] + rest) && LostAt(drv, acc, rest, x)
    ensures Start(rest[0]) <= x
    decreases |rest|
  {
    MergeNext(drv, acc, rest);
    if CanMerge(drv, acc, rest[0]) {
      if !(End(rest[0]) <= x < End(acc) && !CoveredBy(rest[1..], x)) {
        LostIsLate(drv, Combine(acc, rest[0]), rest[1..], x);
      }
    } else {
      LostIsLate(drv, rest[0], rest[1..], x);
    }
  }

  lemma {:induction false} UnwrittenStays(drv: Driver, acc: Request, rest: seq<Request>, x: nat, v: u8)
    requires WellFormed(acc) && AllWellFormed(rest) && Sorted([acc] + rest) && !CoveredBy(rest, x)
    requires Write(acc, x, v) == v || Write(acc, x, v) == 0
    ensures AllWellFormed(MergeFrom(drv, acc, rest))
    ensures Apply(MergeFrom(drv, acc, rest), x, v) == v || Apply(MergeFrom(drv, acc, rest), x, v) == 0
    decreases |rest|
  {
    MergedWellFormed(drv, acc, rest);
    if rest == [] {
      ApplyTwo(acc, [], x, v);
      assert [acc] + [] == [acc];
    } else {
      MergeNext(drv, acc, rest);
      var b, later := rest[0], rest[1..];
      assert !Covers(b, x) && forall i :: 0 <= i < |later| ==> later[i] == rest[i + 1];
      if CanMerge(drv, acc, b) {
        CombinedWrite(acc, b, x, v);
        UnwrittenStays(drv, Combine(acc, b), later, x, v);
      } else {
        UnwrittenStays(drv, b, later, x, Write(acc, x, v));
        ApplyTwo(acc, MergeFrom(drv, b, later), x, v);
      }
    }
  }

  /** A lost byte really is wrong: some data shows it. */
  lemma {:induction false} LostDiffers(drv: Driver, acc: Request, rest: seq<Request>, x: nat, v: u8)
    requires WellFormed(acc) && AllWellFormed(rest) && Sorted([acc] + rest) && LostAt(drv, acc, rest, x)
    requires AllWellFormed([acc] + rest) && Telling([acc] + rest, x, v)
    ensures AllWellFormed(MergeFrom(drv, acc, rest))
    ensures Apply(MergeFrom(drv, acc, rest), x, v) != Apply([acc] + rest, x, v)
    decreases |rest|
  {
    MergedWellFormed(drv, acc, rest);
    MergeNext(drv, acc, rest);
    ApplyTwo(acc, rest, x, v);
    var b, later := rest[0], rest[1..];
    assert rest == [b] + later;
    TellingTail(acc, rest, x, v);
    if !CanMerge(drv, acc, b) {
      LostDiffers(drv, b, later, x, Write(acc, x, v));
      ApplyTwo(acc, MergeFrom(drv, b, later), x, v);
    } else if End(b) <= x < End(acc) && !CoveredBy(later, x) {
      LostHere(drv, acc, b, later, x, v);
    } else {
      LostIsLate(drv, acc, rest, x);
      CombinedWrite(acc, b, x, v);
      CombinedWrite(acc, b, x, 0);
      TellingHead(b, Combine(acc, b), later, x, v);
      LostDiffers(drv, Combine(acc, b), later, x, v);
      ApplyTwo(Combine(acc, b), later, x, v);
      CombineStep(acc, b, later, x, v);
    }
  }

  lemma LostHere(drv: Driver, acc: Request, b: Request, later: seq<Request>, x: nat, v: u8)
    requires WellFormed(acc) && WellFormed(b) && AllWellFormed(later) && AllWellFormed([b] + later)
    requires acc.sector <= b.sector
    requires WellFormed(Combine(acc, b)) && Sorted([Combine(acc, b)] + later)
    requires End(b) <= x < End(acc) && !CoveredBy(later, x) && AllWellFormed([acc] + ([b] + later))
    requires Telling([acc] + ([b] + later), x, v)
    ensures AllWellFormed(MergeFrom(drv, Combine(acc, b), later))
    ensures Apply(MergeFrom(drv, Combine(acc, b), later), x, v) != Apply([b] + later, x, Write(acc, x, v))
  {
    CombinedWrite(acc, b, x, v);
    UnwrittenStays(drv, Combine(acc, b), later, x, v);
    ApplyTwo(b, later, x, Write(acc, x, v));
    NotWritten(later, x, Write(acc, x, v));
    var s := [acc] + ([b] + later);
    assert s[0] == acc && Covers(acc, x) && Write(acc, x, 0) == Write(acc, x, v);
  }

  lemma {:induction false} LastWriter(reqs: seq<Request>, x: nat, v: u8)
    requires AllWellFormed(reqs) && CoveredBy(reqs, x) && Telling(reqs, x, v)
    ensures Apply(reqs, x, v) != 0
  {
    var acc, rest := reqs[0], reqs[1..];
    assert reqs == [acc] + rest;
    if CoveredBy(rest, x) {
      TellingTail(acc, rest, x, v);
      LastWriter(rest, x, Write(acc, x, v));
    } else {
      NotWritten(rest, x, Write(acc, x, v));
      assert forall k :: 0 <= k < |rest| ==> reqs[k + 1] == rest[k] && !Covers(rest[k], x);
      assert Covers(reqs[0], x);
    }
  }

  // ----- The batch -----------------------------------------------------------

  function Merged(drv: Driver, reqs: seq<Request>): seq<Request>
    requires AllWellFormed(reqs) && Sorted(reqs)
  {
    if reqs == [] then [] else assert reqs == [reqs[0]] + reqs[1..]; MergeFrom(drv, reqs[0], reqs[1..])
  }

  /** Byte x is filled with zeros by the merge of this batch. */
  ghost predicate Filled(drv: Driver, reqs: seq<Request>, x: nat)
    requires AllWellFormed(reqs) && Sorted(reqs)
  {
    reqs != [] && (assert reqs == [reqs[0]] + reqs[1..]; GapAt(drv, reqs[0], reqs[1..], x))
  }

  /** The merge of this batch drops the data for byte x. */
  ghost predicate Dropped(drv: Driver, reqs: seq<Request>, x: nat)
    requires AllWellFormed(reqs) && Sorted(reqs)
  {
    reqs != [] && (assert reqs == [reqs[0]] + reqs[1..]; LostAt(drv, reqs[0], reqs[1..], x) ||
      (GapAt(drv, reqs[0], reqs[1..], x) && CoveredBy(reqs, x)))
  }

  /** Merging keeps every byte that it does not drop; the driver has gaps filled only where the disk reads as zeros. */
  lemma MergeKeepsByte(drv: Driver, reqs: seq<Request>, x: nat, v: u8)
    requires AllWellFormed(reqs) && Sorted(reqs) && !Dropped(drv, reqs, x) && (Filled(drv, reqs, x) ==> v == 0)
    ensures AllWellFormed(Merged(drv, reqs)) && Apply(Merged(drv, reqs), x, v) == Apply(reqs, x, v)
  {
    if reqs != [] {
      assert reqs == [reqs[0]] + reqs[1..];
      MergePreserves(drv, reqs[0], reqs[1..], x, v);
      if Filled(drv, reqs, x) {
        NotWritten(reqs, x, v);
      }
    }
  }

  /** For data that tells the writers of byte x apart, merging keeps it exactly if it does not drop it. */
  lemma MergeKeepsByteIff(drv: Driver, reqs: seq<Request>, x: nat, v: u8)
    requires AllWellFormed(reqs) && Sorted(reqs) && Telling(reqs, x, v) && (Filled(drv, reqs, x) ==> v == 0)
    ensures AllWellFormed(Merged(drv, reqs))
    ensures Apply(Merged(drv, reqs), x, v) == Apply(reqs, x, v) <==> !Dropped(drv, reqs, x)
  {
    if !Dropped(drv, reqs, x) {
      MergeKeepsByte(drv, reqs, x, v);
    } else {
      assert reqs == [reqs[0]] + reqs[1..];
      if LostAt(drv, reqs[0], reqs[1..], x) {
        LostDiffers(drv, reqs[0], reqs[1..], x, v);
      } else {
        MergePreserves(drv, reqs[0], reqs[1..], x, v);
        LastWriter(reqs, x, v);
      }
    }
  }

  predicate EndsSorted(reqs: seq<Request>) { forall i, j :: 0 <= i < j < |reqs| ==> End(reqs[i]) <= End(reqs[j]) }

  lemma {:induction false} EndsSortedSafe(drv: Driver, acc: Request, rest: seq<Request>, x: nat)
    requires WellFormed(acc) && AllWellFormed(rest) && Sorted([acc] + rest) && EndsSorted([acc] + rest)
    ensures !LostAt(drv, acc, rest, x)
    ensures GapAt(drv, acc, rest, x) ==> End(acc) <= x && !CoveredBy(rest, x)
    decreases |rest|
  {
    if rest != [] {
      MergeNext(drv, acc, rest);
      var b, later := rest[0], rest[1..];
      assert rest == [b] + later;
      EndsTail(acc, b, later);
      CombinedWrite(acc, b, x, 0);
      if CanMerge(drv, acc, b) {
        EndsHead(b, Combine(acc, b), later);
        EndsSortedSafe(drv, Combine(acc, b), later, x);
        if End(acc) <= x < Start(b) {
          assert forall i :: 0 <= i < |rest| ==> x < Start(rest[i]);
        }
      } else {
        EndsSortedSafe(drv, b, later, x);
      }
      if GapAt(drv, acc, rest, x) {
        NotCovered(b, later, x);
      }
    }
  }

  lemma NotCovered(b: Request, later: seq<Request>, x: nat)
    requires !Covers(b, x) && !CoveredBy(later, x)
    ensures !CoveredBy([b] + later, x)
  {
  }

  lemma EndsTail(acc: Request, b: Request, later: seq<Request>)
    requires EndsSorted([acc] + ([b] + later))
    ensures EndsSorted([b] + later) && End(acc) <= End(b)
  {
    var s := [acc] + ([b] + later);
    assert s[0] == acc && s[1] == b && s[1..] == [b] + later;
    assert forall i :: 0 <= i < |[b] + later| ==> ([b] + later)[i] == s[i + 1];
  }

  lemma EndsHead(b: Request, acc: Request, later: seq<Request>)
    requires EndsSorted([b] + later) && End(acc) == End(b)
    ensures EndsSorted([acc] + later)
  {
    var s, s' := [b] + later, [acc] + later;
    assert s[0] == b && s'[0] == acc && forall i :: 0 < i < |s| ==> s'[i] == s[i];
  }

  /** When end sectors do not decrease either, merging preserves the meaning of the whole batch. */
  lemma MergeKeepsMeaning(drv: Driver, reqs: seq<Request>, x: nat, v: u8)
    requires AllWellFormed(reqs) && Sorted(reqs) && EndsSorted(reqs) && (Filled(drv, reqs, x) ==> v == 0)
    ensures AllWellFormed(Merged(drv, reqs)) && Apply(Merged(drv, reqs), x, v) == Apply(reqs, x, v)
  {
    if reqs != [] {
      assert reqs == [reqs[0]] + reqs[1..];
      EndsSortedSafe(drv, reqs[0], reqs[1..], x);
      if Filled(drv, reqs, x) {
        NotCovered(reqs[0], reqs[1..], x);
      }
    }
    MergeKeepsByte(drv, reqs, x, v);
  }

  /** The request being built when the loop comes to the i-th of the requests to come. */
  function Building(drv: Driver, acc: Request, rest: seq<Request>, i: nat): Request
    requires WellFormed(acc) && AllWellFormed(rest) && Sorted([acc] + rest) && i < |rest|
    decreases i
  {
    if i == 0 then acc
    else
      MergeNext(drv, acc, rest);
      Building(drv, if CanMerge(drv, acc, rest[0]) then Combine(acc, rest[0]) else rest[0], rest[1..], i - 1)
  }

  /** x lies in the gap before the i-th request, and the driver agreed to fill it. */
  ghost predicate FilledBefore(drv: Driver, acc: Request, rest: seq<Request>, x: nat, i: nat)
    requires WellFormed(acc) && AllWellFormed(rest) && Sorted([acc] + rest) && i < |rest|
  {
    var a := Building(drv, acc, rest, i);
    drv(a, rest[i]) && End(a) <= x < Start(rest[i])
  }

  /** A filled gap lies before a request of the batch, which the driver agreed to join to the one being built. */
  lemma {:induction false} FilledIsApproved(drv: Driver, acc: Request, rest: seq<Request>, x: nat) returns (i: nat)
    requires WellFormed(acc) && AllWellFormed(rest) && Sorted([acc] + rest) && GapAt(drv, acc, rest, x)
    ensures i < |rest| && FilledBefore(drv, acc, rest, x, i)
    decreases |rest|
  {
    MergeNext(drv, acc, rest);
    if CanMerge(drv, acc, rest[0]) && End(acc) <= x < Start(rest[0]) {
      i := 0;
    } else {
      var next := if CanMerge(drv, acc, rest[0]) then Combine(acc, rest[0]) else rest[0];
      var k := FilledIsApproved(drv, next, rest[1..], x);
      assert Building(drv, acc, rest, k + 1) == Building(drv, next, rest[1..], k);
      i := k + 1;
    }
  }

  type Disk = nat -> u8

  /** The driver has a gap filled only where the disk reads as zeros. */
  ghost predicate Honest(drv: Driver, disk: Disk) {
    forall a, b, x :: drv(a, b) && End(a) <= x < Start(b) ==> disk(x) == 0
  }

  lemma FilledReadsZero(drv: Driver, reqs: seq<Request>, disk: Disk, x: nat)
    requires AllWellFormed(reqs) && Sorted(reqs) && Honest(drv, disk)
    ensures Filled(drv, reqs, x) ==> disk(x) == 0
  {
    if Filled(drv, reqs, x) {
      assert reqs == [reqs[0]] + reqs[1..];
      var i := FilledIsApproved(drv, reqs[0], reqs[1..], x);
      assert drv(Building(drv, reqs[0], reqs[1..], i), reqs[1..][i]);
    }
  }

  /** The disk after a batch. */
  function DiskAfter(reqs: seq<Request>, disk: Disk): Disk
    requires AllWellFormed(reqs)
  {
    x => Apply(reqs, x, disk(x))
  }

  /** For end sectors that do not decrease, the merged batch leaves the whole disk as the sorted batch does. */
  lemma MergeKeepsDisk(drv: Driver, reqs: seq<Request>, disk: Disk)
    requires AllWellFormed(reqs) && Sorted(reqs) && EndsSorted(reqs) && Honest(drv, disk)
    ensures AllWellFormed(Merged(drv, reqs))
    ensures forall x :: DiskAfter(Merged(drv, reqs), disk)(x) == DiskAfter(reqs, disk)(x)
  {
    MergeKeepsMeaning(drv, reqs, 0, if Filled(drv, reqs, 0) then 0 else disk(0));
    forall x: nat ensures Apply(Merged(drv, reqs), x, disk(x)) == Apply(reqs, x, disk(x)) {
      FilledReadsZero(drv, reqs, disk, x);
      MergeKeepsMeaning(drv, reqs, x, disk(x));
    }
  }

  /** For any sorted batch the two disks differ at most where data is dropped. */
  lemma MergeKeepsDiskElsewhere(drv: Driver, reqs: seq<Request>, disk: Disk)
    requires AllWellFormed(reqs) && Sorted(reqs) && Honest(drv, disk)
    ensures AllWellFormed(Merged(drv, reqs))
    ensures forall x :: !Dropped(drv, reqs, x) ==> DiskAfter(Merged(drv, reqs), disk)(x) == DiskAfter(reqs, disk)(x)
  {
    if reqs != [] {
      assert reqs == [reqs[0]] + reqs[1..];
      MergedWellFormed(drv, reqs[0], reqs[1..]);
    }
    forall x: nat | !Dropped(drv, reqs, x) ensures Apply(Merged(drv, reqs), x, disk(x)) == Apply(reqs, x, disk(x)) {
      FilledReadsZero(drv, reqs, disk, x);
      MergeKeepsByte(drv, reqs, x, disk(x));
    }
  }

  function Fill(n: nat, v: u8): seq<u8> { seq(n, _ => v) }

  /** Two sectors, then the first of them again. */
  function Whole(): Request { Request(0, 2, [Fill(2 * SECTOR, 1)]) }

  function Again(): Request { Request(0, 1, [Fill(SECTOR, 2)]) }

  lemma ExampleShape()
    ensures Data(Whole()) == Fill(2 * SECTOR, 1) && Data(Again()) == Fill(SECTOR, 2)
    ensures WellFormed(Whole()) && WellFormed(Again()) && !EndsSorted([Whole(), Again()])
  {
    FlattenOne(Fill(2 * SECTOR, 1));
    FlattenOne(Fill(SECTOR, 2));
    var reqs := [Whole(), Again()];
    assert End(reqs[0]) > End(reqs[1]);
  }

  /** The second sector's data never reaches the disk. */
  lemma TailIsDropped(drv: Driver)
    ensures var reqs := [Whole(), Again()];
      AllWellFormed(reqs) && Sorted(reqs) && !EndsSorted(reqs) && !Filled(drv, reqs, SECTOR) &&
        AllWellFormed(Merged(drv, reqs)) &&
      Apply(Merged(drv, reqs), SECTOR, 0) != Apply(reqs, SECTOR, 0)
  {
    ExampleShape();
    var a, b := Whole(), Again();
    var reqs := [a, b];
    assert reqs == [a] + [b] && [b][1..] == [];
    MergeNext(drv, a, [b]);
    assert LostAt(drv, a, [b], SECTOR) && !GapAt(drv, a, [b], SECTOR);
    assert Telling(reqs, SECTOR, 0);
    MergeKeepsByteIff(drv, reqs, SECTOR, 0);
  }

  // ----- Which requests are merged ---------------------------------------------

  lemma {:induction false} TakeCount(iov: Iov, o: nat, n: nat)
    ensures |Take(iov, o, n)| <= |iov|
    decreases |iov|
  {
    if n != 0 && iov != [] {
      if o < |iov[0]| {
        TakeCount(iov[1..], 0, n - Min(|iov[0]| - o, n));
      } else {
        TakeCount(iov[1..], o - |iov[0]|, n);
      }
    }
  }

  lemma CombinedCount(a: Request, b: Request)
    requires a.sector <= b.sector
    ensures |Combine(a, b).iov| <= |a.iov| + |b.iov| + if b.sector > a.sector + a.nbSectors then 1 else 0
  {
    TakeCount(a.iov, 0, (b.sector - a.sector) * SECTOR);
    TakeCount(b.iov, 0, |Data(b)|);
  }

  ghost predicate VectorsFit(reqs: seq<Request>) { forall i :: 0 <= i < |reqs| ==> |reqs[i].iov| <= 1024 }

  /** No request gets too many vectors by merging. */
  lemma {:induction false} MergedVectorsFit(drv: Driver, acc: Request, rest: seq<Request>)
    requires WellFormed(acc) && AllWellFormed(rest) && Sorted([acc] + rest)
    requires |acc.iov| <= 1024 && VectorsFit(rest)
    ensures VectorsFit(MergeFrom(drv, acc, rest))
    decreases |rest|
  {
    if rest != [] {
      MergeNext(drv, acc, rest);
      CombinedCount(acc, rest[0]);
      if CanMerge(drv, acc, rest[0]) {
        MergedVectorsFit(drv, Combine(acc, rest[0]), rest[1..]);
      } else {
        MergedVectorsFit(drv, rest[0], rest[1..]);
      }
    }
  }

  function Vectors(reqs: seq<Request>): nat { if reqs == [] then 0 else |reqs[0].iov| + Vectors(reqs[1..]) }

  /** Each request starts at or before the end of the one before it. */
  ghost predicate Sequential(reqs: seq<Request>) {
    forall i :: 0 <= i < |reqs| - 1 ==> reqs[i + 1].sector <= reqs[i].sector + reqs[i].nbSectors
  }

  /** Requests without gaps become one. */
  lemma {:induction false} SequentialIsOne(drv: Driver, acc: Request, rest: seq<Request>)
    requires WellFormed(acc) && AllWellFormed(rest) && Sorted([acc] + rest) && Sequential(rest)
    requires rest != [] ==> rest[0].sector <= acc.sector + acc.nbSectors
    requires |acc.iov| + Vectors(rest) < 1024
    ensures var out := MergeFrom(drv, acc, rest);
      |out| == 1 && out[0].sector == acc.sector && End(out[0]) == End(if rest == [] then acc else rest[|rest| - 1])
    decreases |rest|
  {
    if rest != [] {
      MergeNext(drv, acc, rest);
      CombinedCount(acc, rest[0]);
      CombinedData(acc, rest[0]);
      assert rest[1..] != [] ==> rest[1..][0] == rest[0 + 1];
      assert forall i :: 0 <= i < |rest[1..]| ==> rest[1..][i] == rest[i + 1];
      SequentialIsOne(drv, Combine(acc, rest[0]), rest[1..]);
    }
  }

  /** The driver refused to join b, which is behind a gap, to a, or together they have too many vectors. */
  ghost predicate KeptApart(drv: Driver, a: Request, b: Request) {
    (b.sector > a.sector + a.nbSectors && !drv(a, b)) || |a.iov| + |b.iov| >= 1024
  }

  /** The second of two neighbours begins with a request of the batch that could not be joined to the first. */
  ghost predicate Split(drv: Driver, a: Request, b: Request, reqs: seq<Request>) {
    exists i :: 0 <= i < |reqs| && reqs[i].sector == b.sector && KeptApart(drv, a, reqs[i])
  }

  ghost predicate AllSplit(drv: Driver, out: seq<Request>, reqs: seq<Request>) {
    forall j :: 0 <= j < |out| - 1 ==> Split(drv, out[j], out[j + 1], reqs)
  }

  lemma {:induction false} FirstStart(drv: Driver, acc: Request, rest: seq<Request>)
    requires WellFormed(acc) && AllWellFormed(rest) && Sorted([acc] + rest)
    ensures var out := MergeFrom(drv, acc, rest); out != [] && out[0].sector == acc.sector
    decreases |rest|
  {
    if rest != [] {
      MergeNext(drv, acc, rest);
      CombinedData(acc, rest[0]);
      if CanMerge(drv, acc, rest[0]) {
        FirstStart(drv, Combine(acc, rest[0]), rest[1..]);
      }
    }
  }

  lemma SplitMore(drv: Driver, a: Request, b: Request, rest: seq<Request>)
    requires rest != [] && Split(drv, a, b, rest[1..])
    ensures Split(drv, a, b, rest)
  {
    var i :| 0 <= i < |rest[1..]| && rest[1..][i].sector == b.sector && KeptApart(drv, a, rest[1..][i]);
    assert rest[i + 1] == rest[1..][i];
  }

  /** What is left apart could not be joined. */
  lemma {:induction false} MergedIsSplit(drv: Driver, acc: Request, rest: seq<Request>)
    requires WellFormed(acc) && AllWellFormed(rest) && Sorted([acc] + rest)
    ensures AllSplit(drv, MergeFrom(drv, acc, rest), rest)
    decreases |rest|
  {
    if rest != [] {
      MergeNext(drv, acc, rest);
      var joined := CanMerge(drv, acc, rest[0]);
      var next := if joined then Combine(acc, rest[0]) else rest[0];
      var out, tail := MergeFrom(drv, acc, rest), MergeFrom(drv, next, rest[1..]);
      MergedIsSplit(drv, next, rest[1..]);
      FirstStart(drv, next, rest[1..]);
      forall j | 0 <= j < |out| - 1 ensures Split(drv, out[j], out[j + 1], rest) {
        if joined {
          SplitMore(drv, out[j], out[j + 1], rest);
        } else if j == 0 {
          assert KeptApart(drv, acc, rest[0]);
        } else {
          assert Split(drv, tail[j - 1], tail[j - 1 + 1], rest[1..]);
          SplitMore(drv, out[j], out[j + 1], rest);
        }
      }
    }
  }

  lemma HeadAndRest(reqs: seq<Request>)
    requires reqs != []
    ensures reqs == [reqs[0]] + reqs[1..] && forall i :: 0 <= i < |reqs[1..]| ==> reqs[1..][i] == reqs[i + 1]
  {
  }

  lemma MergedSequential(drv: Driver, reqs: seq<Request>)
    requires reqs != [] && AllWellFormed(reqs) && Sorted(reqs) && Sequential(reqs) && Vectors(reqs) < 1024
    ensures var out := Merged(drv, reqs);
      |out| == 1 && out[0].sector == reqs[0].sector && End(out[0]) == End(reqs[|reqs| - 1])
  {
    HeadAndRest(reqs);
    assert |reqs| > 1 ==> reqs[0 + 1].sector <= reqs[0].sector + reqs[0].nbSectors;
    SequentialIsOne(drv, reqs[0], reqs[1..]);
  }

  lemma MergedSplit(drv: Driver, reqs: seq<Request>, out: seq<Request>)
    requires reqs != [] && AllWellFormed(reqs) && Sorted(reqs) && out == Merged(drv, reqs)
    ensures AllSplit(drv, out, reqs)
  {
    HeadAndRest(reqs);
    MergedIsSplit(drv, reqs[0], reqs[1..]);
    forall j | 0 <= j < |out| - 1 ensures Split(drv, out[j], out[j + 1], reqs) {
      assert Split(drv, out[j], out[j + 1], reqs[1..]);
      SplitMore(drv, out[j], out[j + 1], reqs);
    }
  }

  lemma MergedTwo(drv: Driver, reqs: seq<Request>)
    requires |reqs| == 2 && AllWellFormed(reqs) && Sorted(reqs)
    ensures |Merged(drv, reqs)| == 1 <==>
      |reqs[0].iov| + |reqs[1].iov| < 1024 &&
      (reqs[1].sector <= reqs[0].sector + reqs[0].nbSectors || drv(reqs[0], reqs[1]))
  {
    HeadAndRest(reqs);
    var acc, rest := reqs[0], reqs[1..];
    MergeNext(drv, acc, rest);
    assert rest[0] == reqs[1] && rest[1..] == [];
    if CanMerge(drv, acc, rest[0]) {
      assert MergeFrom(drv, Combine(acc, rest[0]), rest[1..]) == [Combine(acc, rest[0])];
    } else {
      assert MergeFrom(drv, rest[0], rest[1..]) == [rest[0]];
    }
  }

  /** Which requests of a sorted batch are merged. */
  lemma MergedShape(drv: Driver, reqs: seq<Request>, out: seq<Request>)
    requires reqs != [] && AllWellFormed(reqs) && Sorted(reqs) && out == Merged(drv, reqs)
    ensures Sequential(reqs) && Vectors(reqs) < 1024 ==>
      |out| == 1 && out[0].sector == reqs[0].sector && End(out[0]) == End(reqs[|reqs| - 1])
    ensures AllSplit(drv, out, reqs) && (VectorsFit(reqs) ==> VectorsFit(out))
    ensures |reqs| == 2 ==>
      (|out| == 1 <==> |reqs[0].iov| + |reqs[1].iov| < 1024 &&
                       (reqs[1].sector <= reqs[0].sector + reqs[0].nbSectors || drv(reqs[0], reqs[1])))
  {
    if Sequential(reqs) && Vectors(reqs) < 1024 {
      MergedSequential(drv, reqs);
    }
    if VectorsFit(reqs) {
      HeadAndRest(reqs);
      MergedVectorsFit(drv, reqs[0], reqs[1..]);
    }
    MergedSplit(drv, reqs, out);
    if |reqs| == 2 {
      MergedTwo(drv, reqs);
    }
  }

  // ----- The code ------------------------------------------------------------

  function Insert(r: Request, reqs: seq<Request>): seq<Request> {
    if reqs == [] || r.sector <= reqs[0].sector then [r] + reqs else [reqs[0]] + Insert(r, reqs[1..])
  }

  lemma {:induction false} InsertPermutes(r: Request, reqs: seq<Request>)
    ensures multiset(Insert(r, reqs)) == multiset(reqs) + multiset{r}
    ensures forall x :: x in Insert(r, reqs) ==> x == r || x in reqs
  {
    if !(reqs == [] || r.sector <= reqs[0].sector) {
      assert reqs == [reqs[0]] + reqs[1..];
      InsertPermutes(r, reqs[1..]);
    }
  }

  lemma {:induction false} InsertSorts(r: Request, reqs: seq<Request>)
    requires Sorted(reqs)
    ensures Sorted(Insert(r, reqs))
  {
    if reqs == [] || r.sector <= reqs[0].sector {
      assert forall i :: 1 <= i < |[r] + reqs| ==> ([r] + reqs)[i] == reqs[i - 1];
    } else {
      var tail := Insert(r, reqs[1..]);
      InsertSorts(r, reqs[1..]);
      InsertPermutes(r, reqs[1..]);
      forall k | 0 <= k < |tail| ensures reqs[0].sector <= tail[k].sector {
        assert tail[k] in tail;
      }
      PrependSorted(reqs[0], tail);
    }
  }

  lemma PrependSorted(r: Request, reqs: seq<Request>)
    requires Sorted(reqs) && forall k :: 0 <= k < |reqs| ==> r.sector <= reqs[k].sector
    ensures Sorted([r] + reqs)
  {
    assert forall i :: 1 <= i < |[r] + reqs| ==> ([r] + reqs)[i] == reqs[i - 1];
  }

  /** qsort by start sector. */
  function Sort(reqs: seq<Request>): seq<Request> { if reqs == [] then [] else Insert(reqs[0], Sort(reqs[1..])) }

  lemma {:induction false} SortSorts(reqs: seq<Request>)
    ensures Sorted(Sort(reqs)) && multiset(Sort(reqs)) == multiset(reqs)
  {
    if reqs != [] {
      SortSorts(reqs[1..]);
      InsertSorts(reqs[0], Sort(reqs[1..]));
      InsertPermutes(reqs[0], Sort(reqs[1..]));
      assert reqs == [reqs[0]] + reqs[1..];
    }
  }

  lemma SortWellFormed(reqs: seq<Request>)
    requires AllWellFormed(reqs)
    ensures AllWellFormed(Sort(reqs)) && |Sort(reqs)| == |reqs|
  {
    SortSorts(reqs);
    forall i | 0 <= i < |Sort(reqs)| ensures WellFormed(Sort(reqs)[i]) {
      assert Sort(reqs)[i] in multiset(reqs);
    }
    assert |multiset(Sort(reqs))| == |multiset(reqs)|;
  }

  /** The merged request, built vector by vector. */
  method Join(a: Request, b: Request) returns (r: Request)
    requires a.sector <= b.sector && WellFormed(a) && WellFormed(b)
    ensures r == Combine(a, b)
  {
    var oldLast := a.sector + a.nbSectors;
    var ok, qiov := Concat([], a.iov, 0, (b.sector - a.sector) * SECTOR);
    ghost var first := qiov;
    if b.sector > oldLast {
      qiov := qiov + [Zeros((b.sector - oldLast) * SECTOR)];
    }
    ghost var second := qiov;
    ok, qiov := Concat(qiov, b.iov, 0, |Flatten(b.iov)|);
    JoinIs(a, b, first, second, qiov);
    r := Request(a.sector, |Flatten(qiov)| / SECTOR, qiov);
  }

  lemma JoinIs(a: Request, b: Request, first: Iov, second: Iov, third: Iov)
    requires a.sector <= b.sector && first == [] + Take(a.iov, 0, (b.sector - a.sector) * SECTOR)
    requires var last := a.sector + a.nbSectors;
      second == if b.sector > last then first + [Zeros((b.sector - last) * SECTOR)] else first
    requires third == second + Take(b.iov, 0, |Data(b)|)
    ensures third == CombinedIov(a, b)
  {
    assert first == Take(a.iov, 0, (b.sector - a.sector) * SECTOR);
    assert second == first + Gap(a, b);
  }

  /** What is done, what is being built and what is still to come. */
  ghost predicate Merging(drv: Driver, reqs: seq<Request>, out: seq<Request>, acc: Request, rest: seq<Request>)
    requires AllWellFormed(reqs) && Sorted(reqs)
  {
    WellFormed(acc) && AllWellFormed(rest) && Sorted([acc] + rest) &&
      out + MergeFrom(drv, acc, rest) == Merged(drv, reqs)
  }

  lemma MergingStep(drv: Driver, reqs: seq<Request>, out: seq<Request>, acc: Request, rest: seq<Request>)
    requires AllWellFormed(reqs) && Sorted(reqs) && Merging(drv, reqs, out, acc, rest) && rest != []
    ensures acc.sector <= rest[0].sector && WellFormed(rest[0])
    ensures if CanMerge(drv, acc, rest[0]) then Merging(drv, reqs, out, Combine(acc, rest[0]), rest[1..])
            else Merging(drv, reqs, out + [acc], rest[0], rest[1..])
  {
    MergeNext(drv, acc, rest);
    if !CanMerge(drv, acc, rest[0]) {
      assert out + ([acc] + MergeFrom(drv, rest[0], rest[1..])) == out + [acc] + MergeFrom(drv, rest[0], rest[1..]);
    }
  }

  lemma MergingStart(drv: Driver, reqs: seq<Request>)
    requires AllWellFormed(reqs) && Sorted(reqs) && reqs != []
    ensures Merging(drv, reqs, [], reqs[0], reqs[1..])
  {
    assert [reqs[0]] + reqs[1..] == reqs;
    assert [] + MergeFrom(drv, reqs[0], reqs[1..]) == MergeFrom(drv, reqs[0], reqs[1..]);
  }

  lemma MergingEnd(drv: Driver, reqs: seq<Request>, out: seq<Request>, acc: Request, rest: seq<Request>)
    requires AllWellFormed(reqs) && Sorted(reqs) && Merging(drv, reqs, out, acc, rest) && |rest| == 0
    ensures out + [acc] == Merged(drv, reqs)
  {
  }

  /** One round of the loop of multiwrite_merge. */
  method MergeOne(drv: Driver, reqs: array<Request>, outidx: nat, i: nat, ghost s: seq<Request>) returns (outidx': nat)
    requires outidx < i < reqs.Length == |s| && AllWellFormed(s) && Sorted(s)
    requires reqs[i..] == s[i..] && Merging(drv, s, reqs[..outidx], reqs[outidx], s[i..])
    modifies reqs
    ensures outidx' <= i && reqs[i + 1..] == s[i + 1..] && Merging(drv, s, reqs[..outidx'], reqs[outidx'], s[i + 1..])
  {
    ghost var out, acc := reqs[..outidx], reqs[outidx];
    assert reqs[i] == reqs[i..][0] == s[i] && s[i..][1..] == s[i + 1..] && reqs[i + 1..] == reqs[i..][1..];
    MergingStep(drv, s, out, acc, s[i..]);
    if CanMerge(drv, reqs[outidx], reqs[i]) {
      var r := Join(reqs[outidx], reqs[i]);
      reqs[outidx] := r;
      outidx' := outidx;
      assert reqs[..outidx'] == out;
    } else {
      outidx' := outidx + 1;
      reqs[outidx'] := reqs[i];
      assert reqs[..outidx'] == out + [acc];
    }
  }

  /** multiwrite_merge after the sort, in place: the first n requests are the merged batch. */
  method MergeInPlace(drv: Driver, reqs: array<Request>) returns (n: nat)
    requires reqs.Length > 0 && AllWellFormed(reqs[..]) && Sorted(reqs[..])
    modifies reqs
    ensures 0 < n <= reqs.Length && reqs[..n] == Merged(drv, old(reqs[..]))
    ensures Sequential(old(reqs[..])) && Vectors(old(reqs[..])) < 1024 ==> n == 1
    ensures AllSplit(drv, reqs[..n], old(reqs[..]))
    ensures VectorsFit(old(reqs[..])) ==> VectorsFit(reqs[..n])
  {
    ghost var s := reqs[..];
    var outidx, i := 0, 1;
    MergingStart(drv, s);
    assert reqs[..0] == [] && reqs[1..] == s[1..];
    while i < reqs.Length
      invariant 0 <= outidx < i <= reqs.Length
      invariant reqs[i..] == s[i..] && Merging(drv, s, reqs[..outidx], reqs[outidx], s[i..])
    {
      outidx := MergeOne(drv, reqs, outidx, i, s);
      i := i + 1;
    }
    n := outidx + 1;
    MergingEnd(drv, s, reqs[..outidx], reqs[outidx], s[i..]);
    assert reqs[..n] == reqs[..outidx] + [reqs[outidx]];
    MergedShape(drv, s, reqs[..n]);
  }

  /** multiwrite_merge */
  method MultiwriteMerge(drv: Driver, reqs: array<Request>) returns (n: nat)
    requires reqs.Length > 0 && AllWellFormed(reqs[..])
    modifies reqs
    ensures var s := Sort(old(reqs[..]));
      && 0 < n <= reqs.Length && AllWellFormed(s) && Sorted(s) && reqs[..n] == Merged(drv, s)
      && AllSplit(drv, reqs[..n], s) && (VectorsFit(s) ==> VectorsFit(reqs[..n]))
      && (Sequential(s) && Vectors(s) < 1024 ==>
            n == 1 && reqs[0].sector == s[0].sector && End(reqs[0]) == End(s[|s| - 1]))
      && (|s| == 2 ==>
            (n == 1 <==> |s[0].iov| + |s[1].iov| < 1024 &&
                         (s[1].sector <= s[0].sector + s[0].nbSectors || drv(s[0], s[1]))))
  {
    var s := Sort(reqs[..]);
    SortSorts(reqs[..]);
    SortWellFormed(reqs[..]);
    forall i | 0 <= i < reqs.Length {
      reqs[i] := s[i];
    }
    assert reqs[..] == s;
    n := MergeInPlace(drv, reqs);
    MergedShape(drv, s, reqs[..n]);
  }
}
