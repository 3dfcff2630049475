/**
  A whole migration run by the code of arch_init.c: a sender with the guest still running, and a
  loader that reads what the sender put out.
 */
module RamMigrationRun {
  import opened Bytes
  import opened RamMigration
  import opened RamMigrationProof
  import opened RamMigrationImpl

  /** What happens between stage 1 and stage 3. */
  datatype Act = Store(k: Pick, page: Page) | Iterate(budget: nat)

  lemma {:induction false} RunBlocksOk(s: Source, es: seq<Event>)
    requires ListOk(s.blocks) && RunOk(s, es)
    ensures ListOk(RunState(s, es).blocks)
    decreases |es|
  {
    if es != [] {
      StepOk(s, es[0]);
      RunBlocksOk(Step(s, es[0]), es[1..]);
    }
  }

  /** A run goes on with one more event. */
  lemma {:induction false} RunSnoc(s: Source, es: seq<Event>, e: Event)
    requires ListOk(s.blocks) && RunOk(s, es) && ListOk(RunState(s, es).blocks) && EventOk(RunState(s, es), e)
    ensures RunOk(s, es + [e]) && RunState(s, es + [e]) == Step(RunState(s, es), e)
    ensures RunStream(s, es + [e]) == RunStream(s, es) + Emit(RunState(s, es), e)
    ensures Sections(es + [e]) == Sections(es) + if e.SaveLive? then 1 else 0
    decreases |es|
  {
    var r := es + [e];
    if es == [] {
      assert r[0] == e && r[1..] == [];
      assert Emit(s, e) + [] == [] + Emit(s, e);
    } else {
      assert r[0] == es[0] && r[1..] == es[1..] + [e];
      StepOk(s, es[0]);
      RunSnoc(Step(s, es[0]), es[1..], e);
      Assoc2(Emit(s, es[0]), RunStream(Step(s, es[0]), es[1..]), Emit(RunState(s, es), e));
    }
  }

  lemma Assoc2(a: seq<u8>, b: seq<u8>, c: seq<u8>)
    ensures a + (b + c) == (a + b) + c
  {
  }

  /** The sender has come from s through the events es; everything it put out is their stream. */
  ghost predicate Ran(sender: RamSender, s: Source, es: seq<Event>, sections: nat)
    reads sender
  {
    && sender.Started() && ListOk(s.blocks) && RunOk(s, es) && sender.State() == RunState(s, es)
    && sender.out == RunStream(s, es) && sections == Sections(es)
  }

  /** The RAM after the stores among acts; one outside RAM is not a store. */
  function Applied(blocks: seq<RamBlock>, acts: seq<Act>): seq<RamBlock> {
    if acts == [] then blocks
    else
      var b, act := Applied(blocks, acts[..|acts| - 1]), acts[|acts| - 1];
      if act.Store? && InRange(b, act.k) then WritePage(b, act.k, act.page) else b
  }

  /** The last page that was stored at q, or the one that was there. */
  function Latest(blocks: seq<RamBlock>, acts: seq<Act>, q: Pick): Page
    requires InRange(blocks, q)
  {
    if acts == [] then blocks[q.block].host[q.page]
    else if acts[|acts| - 1].Store? && acts[|acts| - 1].k == q then acts[|acts| - 1].page
    else Latest(blocks, acts[..|acts| - 1], q)
  }

  lemma {:induction false} AppliedIsLatest(blocks: seq<RamBlock>, acts: seq<Act>)
    ensures forall q :: InRange(Applied(blocks, acts), q) <==> InRange(blocks, q)
    ensures forall q :: InRange(blocks, q) && InRange(Applied(blocks, acts), q) ==>
      Applied(blocks, acts)[q.block].host[q.page] == Latest(blocks, acts, q)
  {
    if acts != [] {
      AppliedIsLatest(blocks, acts[..|acts| - 1]);
    }
  }

  /** One call of ram_save_live within a run. */
  method SaveOnce(sender: RamSender, stage: nat, budget: nat, ghost s: Source, ghost es: seq<Event>, sections: nat)
    returns (ghost es': seq<Event>)
    requires 1 <= stage <= 3 && ListOk(s.blocks)
    requires if stage == 1 then es == [] && sections == 0 && s == sender.State() && SourceOk(s) && sender.out == []
             else Ran(sender, s, es, sections)
    modifies sender
    ensures Ran(sender, s, es', sections + 1)
    ensures |es'| == |es| + 1 && es' == es + [es'[|es|]] && es'[|es|].SaveLive? && es'[|es|].stage == stage
    ensures sender.blocks == if stage == 1 then SortByOffset(old(sender.blocks)) else old(sender.blocks)
  {
    RunBlocksOk(s, es);
    ghost var ks := sender.RamSaveLive(stage, budget);
    RunSnoc(s, es, Event.SaveLive(stage, ks));
    es' := es + [Event.SaveLive(stage, ks)];
  }

  /** One guest store within a run; one outside RAM is not a store. */
  method StoreOnce(sender: RamSender, k: Pick, page: Page, ghost s: Source, ghost es: seq<Event>, ghost sections: nat)
    returns (ghost es': seq<Event>)
    requires Ran(sender, s, es, sections)
    modifies sender
    ensures Ran(sender, s, es', sections) && es <= es'
    ensures sender.blocks ==
      if InRange(old(sender.blocks), k) then WritePage(old(sender.blocks), k, page) else old(sender.blocks)
  {
    es' := es;
    if InRange(sender.blocks, k) {
      RunBlocksOk(s, es);
      RunSnoc(s, es, GuestWrite(k, page));
      sender.GuestStore(k, page);
      es' := es + [GuestWrite(k, page)];
      assert es' [..|es|] == es;
    }
  }

  /** The sending side: stage 1, any mix of guest stores and stage-2 calls, stage 3. */
  method SendAllRam(sender: RamSender, first: nat, acts: seq<Act>, last: nat)
    returns (sections: nat, ghost es: seq<Event>)
    requires SourceOk(sender.State()) && sender.out == []
    modifies sender
    ensures Ran(sender, old(sender.State()), es, sections)
    ensures es != [] && es[0].SaveLive? && es[0].stage == 1 && Last(es).SaveLive? && Last(es).stage == 3
    ensures sender.blocks == Applied(SortByOffset(old(sender.blocks)), acts)
  {
    ghost var s, b := sender.State(), SortByOffset(sender.blocks);
    es := SaveOnce(sender, 1, first, s, [], 0);
    sections := 1;
    ghost var e0 := es[0];
    for i := 0 to |acts|
      invariant Ran(sender, s, es, sections) && es != [] && es[0] == e0
      invariant sender.blocks == Applied(b, acts[..i])
    {
      assert acts[..i + 1][..i] == acts[..i];
      match acts[i] {
        case Store(k, page) =>
          es := StoreOnce(sender, k, page, s, es, sections);
        case Iterate(budget) =>
          es := SaveOnce(sender, 2, budget, s, es, sections);
          sections := sections + 1;
      }
    }
    assert acts[..|acts|] == acts;
    es := SaveOnce(sender, 3, last, s, es, sections);
    sections := sections + 1;
  }

  /** The loading side: one ram_load per section; r is what they come to. */
  method LoadAllRam(loader: RamLoader, sections: nat, inp: Input, ghost r: Outcome) returns (status: Status)
    requires DestOk(loader.State()) && !inp.err && LoadSections(loader.State(), sections, inp.data) == r
    modifies loader
    ensures loader.Reports(status, r)
    decreases sections
  {
    assert inp == Input(inp.data, false);
    if sections == 0 {
      return Done(inp);
    }
    SectionDone(loader.State(), sections, inp.data, r);
    status := loader.RamLoad(inp);
    if status.Done? {
      status := LoadAllRam(loader, sections - 1, status.rest, r);
    }
  }

  lemma SectionDone(d: Dest, n: nat, data: seq<u8>, r: Outcome)
    requires DestOk(d) && n > 0 && LoadSections(d, n, data) == r
    ensures var r1 := Load(d, Input(data, false));
      if r1.Loaded? then DestOk(r1.d) && !r1.inp.err && LoadSections(r1.d, n - 1, r1.inp.data) == r
        else r == r1 && !r1.More?
  {
    LoadSectionsStep(d, n, data, Load(d, Input(data, false)));
  }

  /**
    The whole migration.  Whatever the guest stores and however many pages each call may send, a
    compatible destination ends up with the RAM that the source has at stage 3, its other blocks
    untouched and the stream read to its end; any other destination refuses and stores nothing.
   */
  method Migrate(sender: RamSender, loader: RamLoader, first: nat, acts: seq<Act>, last: nat) returns (status: Status)
    requires SourceOk(sender.State()) && sender.out == [] && DestOk(loader.State())
    modifies sender, loader
    ensures if old(Compatible(sender.blocks, loader.State())) then
              && status == Done(Input([], false)) && SameRam(sender.blocks, loader.State())
              && Untouched(Names(old(sender.blocks)), old(loader.State()), loader.State())
            else status == Einval && loader.State() == old(loader.State())
    ensures sender.blocks == Applied(SortByOffset(old(sender.blocks)), acts)
  {
    ghost var s, d := sender.State(), loader.State();
    var sections;
    ghost var es;
    sections, es := SendAllRam(sender, first, acts, last);
    status := LoadAllRam(loader, sections, Input(sender.out, false), LoadSections(d, sections, sender.out));
    MigrationTransfersRam(s, d, es);
  }
}
