/** What the loader of arch_init.c does with streams that no sender emits: cut-off ones and foreign names. */
module RamMigrationErrors {
  import opened Bytes
  import opened Collections
  import opened RamMigration
  import opened RamMigrationProof

  /** The byte before the last of a flag word, and what is missing of a word that is cut off. */
  lemma CutBytes(word: nat, n: nat)
    requires word % PAGE < 256 && n < 8
    ensures var s := Pad(Be64(word)[..n], 8); |s| == 8 && s[7] == 0 && s[6] % 16 == 0
  {
    var w := Be64(word);
    assert w == Be(word / 256, 7) + [word % 256] && Be(word / 256, 7) == Be(word / 256 / 256, 6) + [word / 256 % 256];
    assert w[6] == word / 256 % 256;
    assert word == 256 * (16 * (word / PAGE)) + word % PAGE;
    assert word / 256 == 16 * (word / PAGE);
  }

  /** A flag word that is cut off shows no flag. */
  lemma CutWord(word: nat, n: nat)
    requires word % PAGE < 256 && n < 8
    ensures FromBe(Pad(Be64(word)[..n], 8)) % PAGE == 0
  {
    CutBytes(word, n);
    var s := Pad(Be64(word)[..n], 8);
    assert s[..7][..6] == s[..6] && s[..7][6] == s[6];
    assert FromBe(s) == FromBe(s[..7]) * 256 + s[7] && FromBe(s[..7]) == FromBe(s[..6]) * 256 + s[6];
    var k := s[6] as int / 16;
    assert FromBe(s) == PAGE * (16 * FromBe(s[..6]) + k);
  }

  lemma NoFlags()
    ensures DecodeFlags(0) == Flags(false, false, false, false, false)
  {
    assert Bits(0, 6) == [false, false, false, false, false, false];
  }

  /** The stream ends inside the flag word of a record, or where one is due. */
  lemma CutInWord(d: Dest, r: Record, n: nat)
    requires DestOk(d) && RecordOk(r) && n < 8
    ensures Iterate(d, Input(Encode(r)[..n], false)) == Broken(d)
  {
    var word := r.offset + RecordFlags(r);
    RecordWord(r);
    SplitWord(r.offset, RecordFlags(r));
    assert Encode(r)[..n] == Be64(word)[..n];
    CutWord(word, n);
    var inp := Input(Be64(word)[..n], false);
    var (got, rest) := GetBe64(inp);
    assert rest == Input([], true) && got % PAGE == 0;
    NoFlags();
  }

  /** The stream ends inside the page data of a record. */
  lemma CutInBody(d: Dest, r: Record, m: nat)
    requires DestOk(d) && RecordOk(r) && CanApply(d, r) && m < |BodyBytes(r.body)|
    ensures Dispatch(d, Flags(r.body.Dup?, false, r.body.Full?, false, r.cont), r.offset,
                     Input(NamePart(r) + BodyBytes(r.body)[..m], false)).Broken?
  {
    HostBlockAppend(d, r, BodyBytes(r.body)[..m]);
  }

  /** Cutting off the n-th byte of a record, but not within its name. */
  predicate CutOutsideName(r: Record, n: nat)
    requires RecordOk(r)
  {
    n < 8 || 8 + |NamePart(r)| <= n < |Encode(r)|
  }

  /** A stream that ends inside a record of a known block gives -EIO. */
  lemma CutRecord(d: Dest, r: Record, n: nat)
    requires DestOk(d) && RecordOk(r) && CanApply(d, r) && CutOutsideName(r, n)
    ensures Load(d, Input(Encode(r)[..n], false)).Broken?
  {
    if n < 8 {
      CutInWord(d, r, n);
    } else {
      var word, m := r.offset + RecordFlags(r), n - 8 - |NamePart(r)|;
      var tail := NamePart(r) + BodyBytes(r.body)[..m];
      RecordWord(r);
      CutTail(Be64(word), NamePart(r), BodyBytes(r.body), m);
      IterateWord(d, Encode(r)[..n], word, tail,
                  Flags(r.body.Dup?, false, r.body.Full?, false, r.cont), r.offset);
      CutInBody(d, r, m);
    }
  }

  lemma CutTail(a: seq<u8>, b: seq<u8>, c: seq<u8>, m: nat)
    requires m <= |c|
    ensures (a + (b + c))[..|a| + |b| + m] == a + (b + c[..m])
  {
  }

  /** The same behind any batch of pages: nothing but what the sender had sent is stored before. */
  lemma CutSection(s: Source, d: Dest, ks: seq<Pick>, k: Pick, n: nat)
    requires Synced(s, d) && CanSendAll(s, ks) && CanSend(SendAll(s, ks), k)
    ensures RecordOk(RecordOf(SendAll(s, ks), k))
    ensures CutOutsideName(RecordOf(SendAll(s, ks), k), n) ==>
      Load(d, Input(EncodeAll(Records(s, ks)) + Encode(RecordOf(SendAll(s, ks), k))[..n], false)).Broken?
  {
    var m := SendAll(s, ks);
    assert BlockOk(m.blocks[k.block]);
    LengthBound(m.blocks, k.block);
    var r := RecordOf(m, k);
    if CutOutsideName(r, n) {
      var d' := LoadPages(s, d, ks, Encode(r)[..n]);
      RecordApplies(m, d', k);
      CutRecord(d', r, n);
    }
  }

  /**
    A record that names a block which the destination does not have: -EINVAL for a compressed
    page; a full page, for which the code does not look at the result, is stored through NULL.
   */
  lemma UnknownBlock(d: Dest, r: Record, rest: seq<u8>)
    requires DestOk(d) && RecordOk(r) && Target(d, r).None?
    ensures Load(d, Input(Encode(r) + rest, false)) ==
      if r.body.Dup? then Invalid(d.(cur := None)) else Crashed
  {
    var word := r.offset + RecordFlags(r);
    var tail := NamePart(r) + (BodyBytes(r.body) + rest);
    var flags := Flags(r.body.Dup?, false, r.body.Full?, false, r.cont);
    Assoc(Be64(word), NamePart(r), BodyBytes(r.body), rest);
    RecordWord(r);
    IterateWord(d, Encode(r) + rest, word, tail, flags, r.offset);
    HostBlockAppend(d, r, BodyBytes(r.body) + rest);
    if r.body.Full? {
      GetBufferAppend(r.body.page, rest);
    }
  }
}
