/**
  Completion of a batch of writes (multiwrite_cb, multiwrite_user_cb and bdrv_aio_multiwrite in
  block.c).  The writes that remain after merging are submitted one by one; each may be refused,
  or finish at once, or at any later time, with or without an error.
 */
module Multiwrite {
  const EIO: int := 5

  /** The first negative value, or 0. */
  function FirstError(rets: seq<int>): int {
    if rets == [] then 0 else if rets[0] < 0 then rets[0] else FirstError(rets[1..])
  }

  lemma {:induction false} FirstErrorAppend(rets: seq<int>, r: int)
    ensures FirstError(rets + [r]) == if FirstError(rets) == 0 && r < 0 then r else FirstError(rets)
    ensures FirstError(rets) <= 0
  {
    if rets == [] {
      assert [] + [r] == [r] && [r][1..] == [];
    } else {
      assert (rets + [r])[0] == rets[0] && (rets + [r])[1..] == rets[1..] + [r];
      FirstErrorAppend(rets[1..], r);
    }
  }

  /** A call of every user callback, in order, each with the same error. */
  function AllCalled(n: nat, error: int): seq<(nat, int)> { seq(n, i requires 0 <= i < n => (i, error)) }

  /** A submitted write finishes. */
  datatype Completion = Completion(write: nat, ret: int)

  /** One submission: whether the driver takes it, and which writes finish before the next step. */
  datatype Round = Round(accepted: bool, done: seq<Completion>)

  ghost function Writes(done: seq<Completion>): set<nat> { set i | 0 <= i < |done| :: done[i].write }

  /** Each completion is of a different pending write. */
  ghost predicate Completes(pending: set<nat>, done: seq<Completion>) {
    && (forall i :: 0 <= i < |done| ==> done[i].write in pending)
    && (forall i, j :: 0 <= i < j < |done| ==> done[i].write != done[j].write)
  }

  function Rets(done: seq<Completion>): seq<int> { seq(|done|, i requires 0 <= i < |done| => done[i].ret) }

  /** A possible behaviour of the driver from submission i on. */
  ghost predicate Possible(script: seq<Round>, i: nat, pending: set<nat>)
    requires i <= |script|
    decreases |script| - i
  {
    i < |script| && script[i].accepted ==>
      Completes(pending + {i}, script[i].done) && Possible(script, i + 1, pending + {i} - Writes(script[i].done))
  }

  /** The results that multiwrite_cb is given from submission i to the end of the call. */
  function Results(script: seq<Round>, i: nat): seq<int>
    requires i <= |script|
    decreases |script| - i
  {
    if i == |script| then [0]
    else if script[i].accepted then Rets(script[i].done) + Results(script, i + 1)
    else [-EIO, 0]
  }

  /** The writes still pending when the call returns. */
  ghost function StillPending(script: seq<Round>, i: nat, pending: set<nat>): set<nat>
    requires i <= |script|
    decreases |script| - i
  {
    if i == |script| || !script[i].accepted then pending
    else StillPending(script, i + 1, pending + {i} - Writes(script[i].done))
  }

  /** MultiwriteCB, the user callbacks made so far, and how often the block has been freed. */
  class MultiwriteCB {
    const numCallbacks: nat
    var error: int
    var numRequests: nat
    var calls: seq<(nat, int)>
    var frees: nat
    var reqErrors: seq<int>
    ghost var pending: set<nat>
    ghost var rets: seq<int>

    /**
      While anything is outstanding (a pending write, or the submission itself) no callback has
      run; afterwards each has run exactly once, with the first error, and the block is freed.
     */
    ghost predicate Valid(submitting: bool)
      reads this
    {
      && numRequests == |pending| + (if submitting then 1 else 0)
      && error == FirstError(rets)
      && (numRequests > 0 ==> calls == [] && frees == 0)
      && (numRequests == 0 ==> calls == AllCalled(numCallbacks, error) && frees == 1)
    }

    constructor (n: nat)
      ensures numCallbacks == n && error == 0 && numRequests == 0 && calls == [] && frees == 0 && pending == {}
      ensures rets == []
      ensures reqErrors == seq(n, _ => 0)
    {
      numCallbacks := n;
      error, numRequests, calls, frees := 0, 0, [], 0;
      reqErrors := seq(n, _ => 0);
      pending, rets := {}, [];
    }

    /** multiwrite_user_cb */
    method UserCb()
      requires calls == []
      modifies this`calls
      ensures calls == AllCalled(numCallbacks, error)
    {
      var i := 0;
      while i < numCallbacks
        invariant 0 <= i <= numCallbacks && calls == AllCalled(i, error)
      {
        calls := calls + [(i, error)];
        i := i + 1;
      }
    }

    /** multiwrite_cb: one outstanding thing, a pending write or the submission, is done. */
    method Cb(ret: int, ghost after: bool, ghost pending': set<nat>)
      requires numRequests > 0 && error == FirstError(rets) && calls == [] && frees == 0
      requires |pending'| + (if after then 1 else 0) == numRequests - 1
      modifies this
      ensures Valid(after) && pending == pending' && rets == old(rets) + [ret] && reqErrors == old(reqErrors)
    {
      FirstErrorAppend(rets, ret);
      if ret < 0 && error == 0 {
        error := ret;
      }
      numRequests := numRequests - 1;
      if numRequests == 0 {
        UserCb();
        frees := frees + 1;
      }
      pending := pending';
      rets := rets + [ret];
    }

    /** A pending write finishes. */
    method Complete(c: Completion, ghost submitting: bool)
      requires Valid(submitting) && c.write in pending
      modifies this
      ensures Valid(submitting) && pending == old(pending) - {c.write} && rets == old(rets) + [c.ret]
      ensures reqErrors == old(reqErrors)
    {
      Cb(c.ret, submitting, pending - {c.write});
    }

    /** Some pending writes finish, in any order. */
    method CompleteAll(done: seq<Completion>, ghost submitting: bool)
      requires Valid(submitting) && Completes(pending, done)
      modifies this
      ensures Valid(submitting) && pending == old(pending) - Writes(done) && rets == old(rets) + Rets(done)
      ensures reqErrors == old(reqErrors)
    {
      var i := 0;
      ghost var p0, r0 := pending, rets;
      assert Rets(done[..0]) == [] && Writes(done[..0]) == {};
      while i < |done|
        invariant 0 <= i <= |done| && Valid(submitting) && reqErrors == old(reqErrors)
        invariant pending == p0 - Writes(done[..i]) && rets == r0 + Rets(done[..i])
      {
        CompletesNext(p0, done, i);
        RetsNext(r0, done, i);
        Complete(done[i], submitting);
        i := i + 1;
      }
      assert done[..i] == done;
    }

    /**
      bdrv_aio_multiwrite once the block is set up, for the writes that are left after merging.
      The first refusal fails the batch only if nothing has been submitted yet.
     */
    method Submit(script: seq<Round>) returns (r: int)
      requires |script| > 0 && Possible(script, 0, {})
      requires error == 0 && numRequests == 0 && calls == [] && frees == 0 && pending == {} && rets == []
      modifies this
      ensures !script[0].accepted ==> r == -1 && calls == [] && frees == 1 && reqErrors == seq(numCallbacks, _ => -EIO)
      ensures script[0].accepted ==> r == 0 && Valid(false) && reqErrors == old(reqErrors)
      ensures script[0].accepted ==> rets == Results(script, 0) && pending == StillPending(script, 0, {})
    {
      numRequests := 1;
      ProgressStart(script);
      var ok := SubmitAll(script, Results(script, 0), StillPending(script, 0, {}));
      if !ok {
        reqErrors := seq(numCallbacks, _ => -EIO);
        frees := frees + 1;
        return -1;
      }
      Cb(0, false, pending);
      return 0;
    }

    /** Submissions up to the first that is refused, if any. */
    method SubmitAccepted(script: seq<Round>, ghost total: seq<int>, ghost left: set<nat>) returns (i: nat)
      requires Valid(true) && Progress(script, 0, pending, rets, total, left)
      modifies this
      ensures i <= |script| && Valid(true) && Progress(script, i, pending, rets, total, left)
      ensures reqErrors == old(reqErrors)
      ensures (forall j :: 0 <= j < i ==> script[j].accepted) && (i < |script| ==> !script[i].accepted)
    {
      i := 0;
      while i < |script| && script[i].accepted
        invariant 0 <= i <= |script| && Valid(true) && Progress(script, i, pending, rets, total, left)
        invariant reqErrors == old(reqErrors) && forall j :: 0 <= j < i ==> script[j].accepted
      {
        ProgressNext(script, i, pending, rets, total, left);
        SubmitOne(i, script[i].done);
        i := i + 1;
      }
    }

    /** The submission loop; false if the very first write is refused. */
    method SubmitAll(script: seq<Round>, ghost total: seq<int>, ghost left: set<nat>) returns (ok: bool)
      requires |script| > 0 && Valid(true) && Progress(script, 0, pending, rets, total, left)
      modifies this
      ensures ok == script[0].accepted && reqErrors == old(reqErrors)
      ensures !ok ==> calls == [] && frees == 0
      ensures ok ==> Valid(true) && rets + [0] == total && pending == left
    {
      var i := SubmitAccepted(script, total, left);
      ProgressEnd(script, i, pending, rets, total, left);
      ok := true;
      if i < |script| {
        numRequests := numRequests + 1;
        if i == 0 {
          ok := false;
        } else {
          Cb(-EIO, true, pending);
        }
      }
    }

    /** A submission that the driver takes, and the completions that follow it. */
    method SubmitOne(i: nat, done: seq<Completion>)
      requires Valid(true) && i !in pending && Completes(pending + {i}, done)
      modifies this
      ensures Valid(true) && pending == old(pending) + {i} - Writes(done) && rets == old(rets) + Rets(done)
      ensures reqErrors == old(reqErrors)
    {
      numRequests := numRequests + 1;
      pending := pending + {i};
      CompleteAll(done, true);
    }
  }

  /**
    bdrv_aio_multiwrite.  Unless the very first submission is refused, every callback runs once,
    with the first error, as soon as nothing is pending any more.
   */
  method AioMultiwrite(numReqs: nat, script: seq<Round>) returns (r: int, mcb: MultiwriteCB?)
    requires numReqs > 0 ==> |script| > 0 && Possible(script, 0, {})
    ensures numReqs == 0 ==> r == 0 && mcb == null
    ensures numReqs > 0 ==> mcb != null && mcb.numCallbacks == numReqs
    ensures numReqs > 0 && !script[0].accepted ==>
      r == -1 && mcb.calls == [] && mcb.frees == 1 && mcb.reqErrors == seq(numReqs, _ => -EIO)
    ensures numReqs > 0 && script[0].accepted ==>
      && r == 0 && mcb.Valid(false) && mcb.reqErrors == seq(numReqs, _ => 0)
      && mcb.rets == Results(script, 0) && mcb.pending == StillPending(script, 0, {})
      && (mcb.pending == {} ==> mcb.calls == AllCalled(numReqs, FirstError(mcb.rets)) && mcb.frees == 1)
      && (mcb.pending != {} ==> mcb.calls == [] && mcb.frees == 0)
  {
    if numReqs == 0 {
      return 0, null;
    }
    var cb := new MultiwriteCB(numReqs);
    r := cb.Submit(script);
    mcb := cb;
  }

  /** Submissions up to i are made; with what is still to come, the results add up to `total` and leave `left`
      pending. */
  ghost predicate Progress(script: seq<Round>, i: nat, pending: set<nat>, rets: seq<int>, total: seq<int>,
                           left: set<nat>)
    requires i <= |script|
  {
    && Possible(script, i, pending) && (forall w :: w in pending ==> w < i)
    && rets + Results(script, i) == total && StillPending(script, i, pending) == left
  }

  lemma ProgressStart(script: seq<Round>)
    requires |script| > 0 && Possible(script, 0, {})
    ensures Progress(script, 0, {}, [], Results(script, 0), StillPending(script, 0, {}))
  {
    assert [] + Results(script, 0) == Results(script, 0);
  }

  lemma ProgressNext(script: seq<Round>, i: nat, pending: set<nat>, rets: seq<int>, total: seq<int>, left: set<nat>)
    requires i < |script| && Progress(script, i, pending, rets, total, left) && script[i].accepted
    ensures i !in pending && Completes(pending + {i}, script[i].done)
    ensures Progress(script, i + 1, pending + {i} - Writes(script[i].done), rets + Rets(script[i].done), total, left)
  {
    var r := Rets(script[i].done);
    assert rets + (r + Results(script, i + 1)) == rets + r + Results(script, i + 1);
  }

  lemma ProgressEnd(script: seq<Round>, i: nat, pending: set<nat>, rets: seq<int>, total: seq<int>, left: set<nat>)
    requires i <= |script| && Progress(script, i, pending, rets, total, left) && (i < |script| ==> !script[i].accepted)
    ensures (if i < |script| then rets + [-EIO] + [0] else rets + [0]) == total
    ensures pending == left
  {
    assert rets + [-EIO] + [0] == rets + [-EIO, 0];
  }

  lemma RetsNext(rets: seq<int>, done: seq<Completion>, i: nat)
    requires i < |done|
    ensures rets + Rets(done[..i]) + [done[i].ret] == rets + Rets(done[..i + 1])
  {
    assert Rets(done[..i + 1]) == Rets(done[..i]) + [done[i].ret];
  }

  lemma CompletesNext(pending: set<nat>, done: seq<Completion>, i: nat)
    requires Completes(pending, done) && i < |done|
    ensures done[i].write in pending - Writes(done[..i])
    ensures Writes(done[..i + 1]) == Writes(done[..i]) + {done[i].write}
  {
    var a, b := done[..i], done[..i + 1];
    forall w | w in Writes(a) + {done[i].write} ensures w in Writes(b) {
      if w in Writes(a) {
        var j :| 0 <= j < i && a[j].write == w;
        assert b[j].write == w;
      } else {
        assert b[i].write == w;
      }
    }
  }
}
