/** What is put into a snapshot stream comes out of it again (savevm.c). */
module QemuFileRoundTrip {
  import opened Bytes
  import opened QemuFile

  /** One qemu_put_* call. */
  datatype Item =
    | Byte(b: u8)
    | Be16(v: nat)
    | Be32(v: nat)
    | Be64(v: nat)
    | Block(data: seq<u8>)
    | Async(addr: nat, data: seq<u8>)

  predicate InRange(x: Item) {
    match x
    case Be16(v) => v < 0x1_0000
    case Be32(v) => v < 0x1_0000_0000
    case Be64(v) => v < TWO64
    case _ => true
  }

  function Code(x: Item): seq<u8> {
    match x
    case Byte(b) => [b]
    case Be16(v) => Be(v, 2)
    case Be32(v) => Be(v, 4)
    case Be64(v) => Be(v, 8)
    case Block(data) => data
    case Async(_, data) => data
  }

  function Codes(xs: seq<Item>): seq<u8> { if xs == [] then [] else Codes(xs[..|xs| - 1]) + Code(xs[|xs| - 1]) }

  /** The matching qemu_get_* call. */
  datatype Kind = GetByte | GetBe16 | GetBe32 | GetBe64 | GetBuffer(n: nat)

  function KindOf(x: Item): Kind {
    match x
    case Byte(_) => GetByte
    case Be16(_) => GetBe16
    case Be32(_) => GetBe32
    case Be64(_) => GetBe64
    case Block(data) => GetBuffer(|data|)
    case Async(_, data) => GetBuffer(|data|)
  }

  datatype Value = Number(v: nat) | Octets(data: seq<u8>)

  function ValueOf(x: Item): Value {
    match x
    case Byte(b) => Number(b)
    case Be16(v) => Number(v)
    case Be32(v) => Number(v)
    case Be64(v) => Number(v)
    case Block(data) => Octets(data)
    case Async(_, data) => Octets(data)
  }

  method Put(w: Writer, x: Item)
    requires w.Valid()
    modifies w, w.buf
    ensures w.Valid() && (w.lastError == 0 ==> w.log == old(w.log) + Code(x))
    ensures old(w.lastError) != 0 ==> w.lastError != 0
  {
    match x {
      case Byte(b) => w.PutByte(b);
      case Be16(v) => w.PutBe16(v);
      case Be32(v) => w.PutBe32(v);
      case Be64(v) => w.PutBe64(v);
      case Block(data) => w.PutBuffer(data);
      case Async(addr, data) => w.PutBufferAsync(addr, data);
    }
  }

  method PutAll(w: Writer, xs: seq<Item>)
    requires w.Valid()
    modifies w, w.buf
    ensures w.Valid() && (w.lastError == 0 ==> w.log == old(w.log) + Codes(xs))
  {
    var i := 0;
    ghost var log0 := w.log;
    while i < |xs|
      invariant 0 <= i <= |xs| && w.Valid() && (w.lastError == 0 ==> w.log == log0 + Codes(xs[..i]))
    {
      assert xs[..i + 1][..i] == xs[..i];
      Assoc(log0, Codes(xs[..i]), Code(xs[i]));
      Put(w, xs[i]);
      i := i + 1;
    }
    assert xs[..i] == xs;
  }

  function Size(k: Kind): nat {
    match k
    case GetByte => 1
    case GetBe16 => 2
    case GetBe32 => 4
    case GetBe64 => 8
    case GetBuffer(n) => n
  }

  /** What a get delivers at a position of the source; after the end, zeros or nothing. */
  function ValueAt(source: seq<u8>, at: nat, k: Kind): Value
    requires at <= |source|
  {
    if k.GetBuffer? then Octets(source[at..Min(at + k.n, |source|)]) else Number(FromBe(NextBytes(source, at, Size(k))))
  }

  /** What a sequence of gets delivers from a position on. */
  function ReadAll(source: seq<u8>, at: nat, kinds: seq<Kind>): seq<Value>
    requires at <= |source|
    decreases |kinds|
  {
    if kinds == [] then []
    else [ValueAt(source, at, kinds[0])] + ReadAll(source, Min(at + Size(kinds[0]), |source|), kinds[1..])
  }

  /** One get. */
  method Get(r: Reader, k: Kind) returns (v: Value)
    requires r.Valid()
    modifies r, r.buf
    ensures r.Valid() && 0 <= old(r.At()) <= |r.source|
    ensures Reliable(old(r.script)) ==>
      Reliable(r.script) && v == ValueAt(r.source, old(r.At()), k) && r.At() == Min(old(r.At()) + Size(k), |r.source|)
  {
    match k {
      case GetByte =>
        ghost var s := NextBytes(r.source, r.At(), 1);
        var b := r.GetByte();
        assert s[..0] == [] && FromBe(s) == FromBe(s[..0]) * 256 + s[0];
        v := Number(b);
      case GetBe16 =>
        var n := r.GetBe16();
        v := Number(n);
      case GetBe32 =>
        var n := r.GetBe32();
        v := Number(n);
      case GetBe64 =>
        var n := r.GetBe64();
        v := Number(n);
      case GetBuffer(n) =>
        var data := r.GetBuffer(n);
        v := Octets(data);
    }
  }

  /** Any sequence of gets. */
  method GetAll(r: Reader, kinds: seq<Kind>) returns (vs: seq<Value>)
    requires r.Valid() && r.At() == 0
    modifies r, r.buf
    ensures Reliable(old(r.script)) ==> vs == ReadAll(r.source, 0, kinds)
  {
    vs := [];
    ghost var reliable, all := Reliable(r.script), ReadAll(r.source, 0, kinds);
    var i := 0;
    assert kinds[0..] == kinds;
    while i < |kinds|
      invariant 0 <= i <= |kinds| && r.Valid() && 0 <= r.At() <= |r.source|
      invariant reliable ==> Reliable(r.script) && vs + ReadAll(r.source, r.At(), kinds[i..]) == all
    {
      assert kinds[i..][0] == kinds[i] && kinds[i..][1..] == kinds[i + 1..];
      ghost var at := r.At();
      var v := Get(r, kinds[i]);
      if reliable {
        ghost var rest := ReadAll(r.source, r.At(), kinds[i + 1..]);
        ReadStep(r.source, at, kinds[i..], r.At(), v, rest);
        OneMore(vs, v, rest);
      }
      vs := vs + [v];
      i := i + 1;
    }
  }

  lemma OneMore(vs: seq<Value>, v: Value, rest: seq<Value>)
    ensures vs + ([v] + rest) == vs + [v] + rest
  {
  }

  lemma {:induction false} CodesPrefix(xs: seq<Item>, i: nat)
    requires i <= |xs|
    ensures IsPrefix(Codes(xs[..i]), Codes(xs))
    decreases |xs| - i
  {
    if i == |xs| {
      assert xs[..i] == xs;
      assert Codes(xs) == Codes(xs)[..|Codes(xs)|];
    } else {
      CodesPrefix(xs, i + 1);
      assert xs[..i + 1][..i] == xs[..i];
      assert Codes(xs[..i]) == Codes(xs[..i + 1])[..|Codes(xs[..i])|];
    }
  }

  /** Where item i lies in the stream. */
  lemma CodeAt(xs: seq<Item>, i: nat)
    requires i < |xs|
    ensures var n := |Codes(xs[..i])|;
      n + |Code(xs[i])| <= |Codes(xs)| && Codes(xs)[n..n + |Code(xs[i])|] == Code(xs[i])
    ensures |Codes(xs[..i + 1])| == |Codes(xs[..i])| + |Code(xs[i])|
  {
    CodesPrefix(xs, i + 1);
    assert xs[..i + 1][..i] == xs[..i];
    var a, b := Codes(xs[..i]), Code(xs[i]);
    assert Codes(xs[..i + 1]) == a + b;
    var s := Codes(xs);
    assert s[|a|..|a| + |b|] == s[..|a + b|][|a|..];
  }

  function Kinds(xs: seq<Item>): seq<Kind> { seq(|xs|, i requires 0 <= i < |xs| => KindOf(xs[i])) }

  function Values(xs: seq<Item>): seq<Value> { seq(|xs|, i requires 0 <= i < |xs| => ValueOf(xs[i])) }

  /** A number read where its code lies is the number. */
  lemma CodeReads(x: Item, source: seq<u8>, at: nat)
    requires InRange(x) && at + |Code(x)| <= |source| && source[at..at + |Code(x)|] == Code(x)
    ensures ValueAt(source, at, KindOf(x)) == ValueOf(x)
  {
    if !KindOf(x).GetBuffer? {
      assert NextBytes(source, at, |Code(x)|) == Code(x);
      if x.Byte? {
        assert Code(x)[..0] == [] && FromBe(Code(x)) == FromBe(Code(x)[..0]) * 256 + x.b;
      } else {
        Pow256Of8();
        assert Pow256(2) == 0x1_0000 && Pow256(4) == 0x1_0000_0000;
        BeRoundTrip(x.v, |Code(x)|);
      }
    }
  }

  /** The matching gets on the bytes of any sequence of puts deliver the values in order. */
  lemma {:induction false} ReadBack(xs: seq<Item>, i: nat)
    requires i <= |xs| && forall k :: 0 <= k < |xs| ==> InRange(xs[k])
    ensures |Codes(xs[..i])| <= |Codes(xs)| && ReadAll(Codes(xs), |Codes(xs[..i])|, Kinds(xs)[i..]) == Values(xs)[i..]
    decreases |xs| - i
  {
    CodesPrefix(xs, i);
    if i < |xs| {
      ReadBack(xs, i + 1);
      Suffixes(xs, i);
      ReadItem(xs, i, Codes(xs), |Codes(xs[..i])|, |Codes(xs[..i + 1])|);
      ReadStep(Codes(xs), |Codes(xs[..i])|, Kinds(xs)[i..], |Codes(xs[..i + 1])|, ValueOf(xs[i]), Values(xs)[i + 1..]);
    }
  }

  lemma ReadStep(source: seq<u8>, at: nat, kinds: seq<Kind>, next: nat, v: Value, vs: seq<Value>)
    requires kinds != [] && at <= |source| && next == Min(at + Size(kinds[0]), |source|)
    requires v == ValueAt(source, at, kinds[0]) && ReadAll(source, next, kinds[1..]) == vs
    ensures ReadAll(source, at, kinds) == [v] + vs
  {
  }

  lemma ReadItem(xs: seq<Item>, i: nat, source: seq<u8>, at: nat, next: nat)
    requires i < |xs| && InRange(xs[i]) && source == Codes(xs) && at == |Codes(xs[..i])| && next == |Codes(xs[..i + 1])|
    ensures at <= |source| && next == Min(at + Size(KindOf(xs[i])), |source|)
    ensures ValueAt(source, at, KindOf(xs[i])) == ValueOf(xs[i])
  {
    CodeAt(xs, i);
    CodeSize(xs[i]);
    CodeReads(xs[i], source, at);
  }

  /** The suffixes that a step of ReadBack goes through. */
  lemma Suffixes(xs: seq<Item>, i: nat)
    requires i < |xs|
    ensures Kinds(xs)[i..] != [] && Kinds(xs)[i..][0] == KindOf(xs[i]) && Kinds(xs)[i..][1..] == Kinds(xs)[i + 1..]
    ensures Values(xs)[i..] == [ValueOf(xs[i])] + Values(xs)[i + 1..]
  {
  }

  lemma CodeSize(x: Item)
    ensures |Code(x)| == Size(KindOf(x))
  {
  }

  /**
    Any sequence of puts in either mode and over any backend, then a flush, then the matching
    gets over any short reads: unless an error is recorded, a write was short or a read failed,
    the values come back in the same order.
   */
  method Transfer(xs: seq<Item>, writev: bool, backend: Backend, reading: seq<Read>)
    returns (error: int, vs: seq<Value>, ghost writes: seq<seq<u8>>)
    requires forall i :: 0 <= i < |xs| ==> InRange(xs[i])
    ensures error == FirstError(backend, |writes|)
    ensures error == 0 ==> Offered(writes) == Codes(xs)
    ensures error == 0 && NoneLost(backend, writes) && Reliable(reading) ==> vs == Values(xs)
    ensures TakesAll(backend) && Reliable(reading) ==> vs == Values(xs)
  {
    var received;
    error, received, writes := WriteOut(xs, writev, backend);
    if TakesAll(backend) {
      NoErrors(backend, |writes|);
    }
    vs := ReadIn(received, Kinds(xs), reading);
    if error == 0 && NoneLost(backend, writes) && Reliable(reading) {
      ReadBack(xs, 0);
      assert xs[..0] == [] && Kinds(xs)[0..] == Kinds(xs) && Values(xs)[0..] == Values(xs);
    }
  }

  method WriteOut(xs: seq<Item>, writev: bool, backend: Backend)
    returns (error: int, received: seq<u8>, ghost writes: seq<seq<u8>>)
    ensures error == FirstError(backend, |writes|)
    ensures error == 0 ==> Offered(writes) == Codes(xs) && (received == Codes(xs) <==> NoneLost(backend, writes))
  {
    var w := new Writer(writev, backend);
    PutAll(w, xs);
    w.Fflush();
    assert [] + Codes(xs) == Codes(xs);
    error, received, writes := w.lastError, w.received, w.writes;
  }

  method ReadIn(source: seq<u8>, kinds: seq<Kind>, reading: seq<Read>) returns (vs: seq<Value>)
    ensures Reliable(reading) ==> vs == ReadAll(source, 0, kinds)
  {
    var r := new Reader(source, reading);
    vs := GetAll(r, kinds);
  }
}
