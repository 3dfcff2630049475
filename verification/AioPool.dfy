/**
  The thread pool for asynchronous I/O (posix-aio-compat.c), as atomic steps: what a thread does
  while it holds the lock is one step, and so is what the main thread does on its own list.
 */
module AioPool {
  import opened Collections

  type Id = nat

  const EINPROGRESS: int := 115
  const ECANCELED: int := 125
  const EINVAL: int := 22

  /** qemu_paiocb */
  datatype Request = Request(context: nat, nbytes: nat, active: bool, ret: int)

  /** A user callback that has run: for which request, in which context, with which result. */
  datatype Call = Call(id: Id, context: nat, ret: int)

  /** What posix_aio_process_queue makes of the outcome of a finished request. */
  function Result(r: Request): int { if r.ret < 0 then r.ret else if r.ret == r.nbytes then 0 else -EINVAL }

  type Requests = map<Id, Request>

  /** A request that a pass over the list for its context takes off it. */
  predicate Ended(reqs: Requests, context: nat, id: Id) {
    id in reqs && reqs[id].context == context && reqs[id].ret != -EINPROGRESS
  }

  /** An entry is left on the list. */
  predicate Stays(reqs: Requests, context: nat, id: Id) { !Ended(reqs, context, id) }

  /** An entry is taken off the list without a callback. */
  predicate Dropped(reqs: Requests, context: nat, id: Id) { Ended(reqs, context, id) && reqs[id].ret == -ECANCELED }

  /** What workers may do to requests: those in progress may end, and a result never changes. */
  ghost predicate Progressed(a: Requests, b: Requests) {
    && b.Keys == a.Keys
    && forall id :: id in a ==>
         && b[id].context == a[id].context && b[id].nbytes == a[id].nbytes
         && (a[id].ret != -EINPROGRESS ==> b[id].ret == a[id].ret)
  }

  lemma ProgressedOne(a: Requests, id: Id, r: Request)
    requires id in a && r.context == a[id].context && r.nbytes == a[id].nbytes
    requires r.ret == a[id].ret || a[id].ret == -EINPROGRESS
    ensures Progressed(a, a[id := r])
  {
  }

  lemma ProgressedTrans(a: Requests, b: Requests, c: Requests)
    requires Progressed(a, b) && Progressed(b, c)
    ensures Progressed(a, c)
  {
  }

  /** The requests as they were when each entry was looked at, between a first and a last state. */
  ghost predicate History(before: Requests, seen: seq<Requests>, after: Requests) {
    && Progressed(before, after)
    && forall k :: 0 <= k < |seen| ==> Progressed(before, seen[k]) && Progressed(seen[k], after)
  }

  /** The entries that stay, each judged by the requests as they were when it was looked at. */
  function KeptOf(list: seq<Id>, seen: seq<Requests>, context: nat): seq<Id>
    requires |seen| == |list|
  {
    if list == [] then []
    else
      var n := |list| - 1;
      KeptOf(list[..n], seen[..n], context) + if Stays(seen[n], context, list[n]) then [list[n]] else []
  }

  /** A pass: entries stay or are dropped until one is called back or the list ends. */
  ghost predicate PassResult(list: seq<Id>, seen: seq<Requests>, context: nat, called: Option<Id>, rest: seq<Id>) {
    var n := if called.Some? then |seen| - 1 else |seen|;
    && 0 <= n <= |seen| <= |list|
    && (forall k :: 0 <= k < n ==> Stays(seen[k], context, list[k]) || Dropped(seen[k], context, list[k]))
    && match called
       case None => n == |list| && rest == KeptOf(list, seen, context)
       case Some(id) =>
         && list[n] == id && Ended(seen[n], context, id) && !Dropped(seen[n], context, id)
         && rest == KeptOf(list[..n], seen[..n], context) + list[n + 1..]
  }

  lemma {:induction false} KeptMembers(list: seq<Id>, seen: seq<Requests>, context: nat)
    requires |seen| == |list| && NoDup(list)
    ensures NoDup(KeptOf(list, seen, context)) && forall id :: id in KeptOf(list, seen, context) ==> id in list
    ensures forall k :: 0 <= k < |list| ==>
      (list[k] in KeptOf(list, seen, context) <==> Stays(seen[k], context, list[k]))
  {
    if list != [] {
      var n := |list| - 1;
      var init := list[..n];
      assert NoDup(init) && list[n] !in init;
      KeptMembers(init, seen[..n], context);
      assert forall k :: 0 <= k < n ==> init[k] == list[k] && seen[..n][k] == seen[k];
      assert forall id :: id in init ==> id in list;
    }
  }

  ghost predicate Called(calls: seq<Call>, id: Id) { exists i :: 0 <= i < |calls| && calls[i].id == id }

  /** Worker threads: as many are busy as requests are running, and a waiting request has a worker to wait for. */
  ghost predicate ThreadsOk(cur: nat, idle: nat, max: nat, running: set<Id>, queue: seq<Id>) {
    idle <= cur <= max && cur - idle == |running| && (queue != [] ==> cur > 0)
  }

  /** The two lists and the requests on them. */
  ghost predicate ListsOk(reqs: Requests, queue: seq<Id>, first: seq<Id>, running: set<Id>, cancelling: Option<Id>) {
    && NoDup(first) && NoDup(queue)
    && (forall id :: id in first ==> id in reqs)
    && (forall id :: id in queue <==> id in first && id in reqs && !reqs[id].active && Some(id) != cancelling)
    && (forall id :: id in queue ==> reqs[id].ret == -EINPROGRESS)
    && (forall id :: id in running ==> id in first && id in reqs && reqs[id].active && reqs[id].ret == -EINPROGRESS)
    && (cancelling.Some? ==> cancelling.value in first)
  }

  /** The result passed to a callback: the error, success for a complete transfer, -EINVAL for a short one. */
  ghost predicate Answers(r: Request, ret: int) {
    && (r.ret < 0 ==> ret == r.ret) && (r.ret == r.nbytes ==> ret == 0)
    && (0 <= r.ret && r.ret != r.nbytes ==> ret == -EINVAL)
  }

  /**
    Callbacks so far: at most one per request, in its context and with its result, and none for
    a cancelled request.
   */
  ghost predicate HistoryOk(reqs: Requests, first: seq<Id>, calls: seq<Call>, cancelled: set<Id>) {
    && (forall i :: 0 <= i < |calls| ==> calls[i].id in reqs && calls[i].id !in first)
    && (forall i :: 0 <= i < |calls| ==> calls[i].id in reqs && calls[i].context == reqs[calls[i].id].context)
    && (forall i :: 0 <= i < |calls| ==> calls[i].id in reqs && Answers(reqs[calls[i].id], calls[i].ret))
    && (forall i, j :: 0 <= i < j < |calls| ==> calls[i].id != calls[j].id)
    && (forall id :: id in cancelled ==> id in reqs && id !in first && !Called(calls, id))
  }

  lemma TakeLists(reqs: Requests, queue: seq<Id>, first: seq<Id>, running: set<Id>, cancelling: Option<Id>)
    requires ListsOk(reqs, queue, first, running, cancelling) && queue != []
    ensures var id := queue[0];
      && id in reqs && id !in running && reqs[id].ret == -EINPROGRESS
      && ListsOk(reqs[id := reqs[id].(active := true)], queue[1..], first, running + {id}, cancelling)
  {
    var id := queue[0];
    assert queue == [id] + queue[1..];
    assert id in queue && id !in queue[1..];
  }

  lemma SubmitLists(reqs: Requests, queue: seq<Id>, first: seq<Id>, running: set<Id>, id: Id, r: Request)
    requires ListsOk(reqs, queue, first, running, None) && id !in reqs && !r.active && r.ret == -EINPROGRESS
    ensures ListsOk(reqs[id := r], queue + [id], [id] + first, running, None)
  {
    assert id !in first && id !in queue;
    assert forall x :: x in queue + [id] <==> x in queue || x == id;
    assert forall x :: x in [id] + first <==> x in first || x == id;
  }

  /** Changing listed requests, but not their context, keeps the history valid. */
  lemma HistoryKept(reqs: Requests, reqs': Requests, first: seq<Id>, calls: seq<Call>, cancelled: set<Id>)
    requires HistoryOk(reqs, first, calls, cancelled)
    requires reqs'.Keys == reqs.Keys && forall id :: id in reqs ==> reqs'[id].context == reqs[id].context
    requires forall id :: id in reqs && id !in first ==> reqs'[id] == reqs[id]
    ensures HistoryOk(reqs', first, calls, cancelled)
  {
  }

  lemma HistoryNew(reqs: Requests, first: seq<Id>, calls: seq<Call>, cancelled: set<Id>, id: Id, r: Request)
    requires HistoryOk(reqs, first, calls, cancelled) && id !in reqs
    ensures HistoryOk(reqs[id := r], [id] + first, calls, cancelled)
  {
  }

  lemma HistoryCall(reqs: Requests, first: seq<Id>, first': seq<Id>, calls: seq<Call>, cancelled: set<Id>,
                    called: Option<Id>, context: nat, ret: int)
    requires HistoryOk(reqs, first, calls, cancelled) && (forall id :: id in first' ==> id in first)
    requires called.Some? ==> called.value in first && called.value in reqs && called.value !in first'
    requires called.Some? ==> reqs[called.value].context == context && Answers(reqs[called.value], ret)
    ensures HistoryOk(reqs, first', if called.Some? then calls + [Call(called.value, context, ret)]
      else calls, cancelled)
  {
    if called.Some? {
      var calls' := calls + [Call(called.value, context, ret)];
      forall id | id in cancelled ensures !Called(calls', id) {
        assert !Called(calls, id);
        assert forall i :: 0 <= i < |calls'| ==>
          calls'[i] == (if i < |calls| then calls[i] else Call(called.value, context, ret));
      }
    }
  }

  class Pool {
    const maxThreads: nat
    var cur: nat
    var idle: nat
    var queue: seq<Id>
    var first: seq<Id>
    var reqs: Requests
    var cancelling: Option<Id>
    var running: set<Id>
    ghost var calls: seq<Call>
    ghost var cancelled: set<Id>

    ghost predicate Valid()
      reads this
    {
      && maxThreads > 0 && ThreadsOk(cur, idle, maxThreads, running, queue)
      && ListsOk(reqs, queue, first, running, cancelling) && HistoryOk(reqs, first, calls, cancelled)
    }

    constructor (max: nat)
      requires max > 0
      ensures Valid() && first == [] && calls == [] && cancelled == {} && running == {} && reqs == map[]
      ensures cancelling == None
    {
      maxThreads := max;
      cur, idle, queue, first, reqs, cancelling := 0, 0, [], [], map[], None;
      running, calls, cancelled := {}, [], {};
    }

    /** paio_submit */
    method Submit(id: Id, context: nat, nbytes: nat)
      requires Valid() && cancelling == None && id !in reqs
      modifies this
      ensures Valid() && first == [id] + old(first) && queue == old(queue) + [id] && running == old(running)
      ensures cancelling == None
      ensures reqs == old(reqs)[id := Request(context, nbytes, false, -EINPROGRESS)]
      ensures cur == (if old(idle) == 0 && old(cur) < maxThreads then old(cur) + 1 else old(cur))
      ensures calls == old(calls) && cancelled == old(cancelled)
    {
      SubmitLists(reqs, queue, first, running, id, Request(context, nbytes, false, -EINPROGRESS));
      HistoryNew(reqs, first, calls, cancelled, id, Request(context, nbytes, false, -EINPROGRESS));
      reqs := reqs[id := Request(context, nbytes, false, -EINPROGRESS)];
      first := [id] + first;
      if idle == 0 && cur < maxThreads {
        cur := cur + 1;
        idle := idle + 1;
      }
      queue := queue + [id];
    }

    /** A worker takes the first waiting request. */
    method Take() returns (id: Id)
      requires Valid() && queue != [] && idle > 0
      modifies this
      ensures Valid() && id == old(queue)[0] && queue == old(queue)[1..] && running == old(running) + {id}
      ensures id !in old(running)
      ensures reqs == old(reqs)[id := old(reqs)[id].(active := true)] && first == old(first)
      ensures cur == old(cur) && calls == old(calls) && cancelled == old(cancelled) && cancelling == old(cancelling)
    {
      id := queue[0];
      TakeLists(reqs, queue, first, running, cancelling);
      HistoryKept(reqs, reqs[id := reqs[id].(active := true)], first, calls, cancelled);
      queue := queue[1..];
      reqs := reqs[id := reqs[id].(active := true)];
      idle := idle - 1;
      running := running + {id};
    }

    /** A worker reports the result of its request. */
    method Finish(id: Id, ret: int)
      requires Valid() && id in running
      modifies this
      ensures Valid() && running == old(running) - {id} && reqs == old(reqs)[id := old(reqs)[id].(ret := ret)]
      ensures queue == old(queue) && first == old(first) && cur == old(cur)
      ensures calls == old(calls) && cancelled == old(cancelled) && cancelling == old(cancelling)
    {
      reqs := reqs[id := reqs[id].(ret := ret)];
      idle := idle + 1;
      running := running - {id};
    }

    /** An idle worker gives up waiting; it leaves only if there is nothing to do. */
    method Exit()
      requires Valid() && idle > 0 && queue == []
      modifies this`idle, this`cur
      ensures Valid() && cur == old(cur) - 1
    {
      idle := idle - 1;
      cur := cur - 1;
    }

    /** The locked part of paio_cancel: a waiting request is withdrawn, a running one is waited for. */
    method CancelBegin(id: Id)
      requires Valid() && cancelling == None && id in first
      modifies this
      ensures Valid() && cancelling == Some(id) && first == old(first) && running == old(running)
      ensures calls == old(calls) && cancelled == old(cancelled)
      ensures reqs == if old(reqs)[id].active then old(reqs) else old(reqs)[id := old(reqs)[id].(ret := -ECANCELED)]
      ensures queue == Drop(old(queue), id)
    {
      DropMembers(queue, id);
      if !reqs[id].active {
        queue := Drop(queue, id);
        reqs := reqs[id := reqs[id].(ret := -ECANCELED)];
      } else {
        DropAbsent(queue, id);
      }
      cancelling := Some(id);
    }

    /** The end of paio_cancel, once the request is no longer in progress: from now on its callback cannot run. */
    method CancelEnd()
      requires Valid() && cancelling.Some? && reqs[cancelling.value].ret != -EINPROGRESS
      modifies this
      ensures Valid() && cancelling == None && first == Drop(old(first), old(cancelling).value)
      ensures cancelled == old(cancelled) + {old(cancelling).value} && calls == old(calls) && reqs == old(reqs)
      ensures queue == old(queue)
    {
      var id := cancelling.value;
      DropMembers(first, id);
      first := Drop(first, id);
      cancelled := cancelled + {id};
      cancelling := None;
    }

    // ----- Workers between two steps of the main thread --------------------------

    /** One step of a worker, if it can be taken. */
    method WorkerStep(w: Work)
      requires Valid()
      modifies this
      ensures Valid() && Progressed(old(reqs), reqs)
      ensures first == old(first) && calls == old(calls) && cancelled == old(cancelled) && cancelling == old(cancelling)
      ensures w.TakeOne? && old(queue) != [] && old(idle) > 0 ==>
        queue == old(queue)[1..] && running == old(running) + {old(queue)[0]}
      ensures w.FinishOne? && w.id in old(running) ==>
        running == old(running) - {w.id} && reqs == old(reqs)[w.id := old(reqs)[w.id].(ret := w.ret)]
      ensures w.ExitOne? && old(queue) == [] && old(idle) > 0 ==> cur == old(cur) - 1
    {
      match w {
        case TakeOne =>
          if queue != [] && idle > 0 {
            ghost var r := reqs;
            var id := Take();
            ProgressedOne(r, id, r[id].(active := true));
          }
        case FinishOne(id, ret) =>
          if id in running {
            ProgressedOne(reqs, id, reqs[id].(ret := ret));
            Finish(id, ret);
          }
        case ExitOne =>
          if queue == [] && idle > 0 {
            Exit();
          }
      }
    }

    method Workers(ws: seq<Work>)
      requires Valid()
      modifies this
      ensures Valid() && Progressed(old(reqs), reqs)
      ensures first == old(first) && calls == old(calls) && cancelled == old(cancelled) && cancelling == old(cancelling)
    {
      var i := 0;
      while i < |ws|
        invariant 0 <= i <= |ws| && Valid() && Progressed(old(reqs), reqs)
        invariant first == old(first) && calls == old(calls) && cancelled == old(cancelled)
        invariant cancelling == old(cancelling)
      {
        ghost var r1 := reqs;
        WorkerStep(ws[i]);
        ProgressedTrans(old(reqs), r1, reqs);
        i := i + 1;
      }
    }

    // ----- posix_aio_process_queue ------------------------------------------------

    /** An ended request leaves the list; with a callback unless it was cancelled. */
    method Unlist(pos: nat, context: nat)
      requires Valid() && cancelling == None && pos < |first| && Ended(reqs, context, first[pos])
      modifies this`first, this`calls
      ensures Valid() && first == old(first)[..pos] + old(first)[pos + 1..]
      ensures calls == CallsAfter(old(calls), reqs, context, old(first)[pos])
    {
      var id := first[pos];
      RemoveAt(first, pos);
      EndedIsIdle(reqs, queue, first, running, id);
      var first' := first[..pos] + first[pos + 1..];
      HistoryCall(reqs, first, first', calls, cancelled, if Dropped(reqs, context, id) then None
        else Some(id), context, Result(reqs[id]));
      first := first';
      if reqs[id].ret != -ECANCELED {
        calls := calls + [Call(id, context, Result(reqs[id]))];
      }
    }

    /** One entry of a pass: workers may act before the lock is taken to look at it. */
    method Visit(context: nat, ws: seq<Work>, pos: nat, ghost list: seq<Id>, ghost seen: seq<Requests>,
                 ghost reqs0: Requests)
      returns (called: Option<Id>, pos': nat, ghost now: Requests)
      requires Valid() && cancelling == None && pos < |first|
      requires Passing(list, seen, context, first, pos) && History(reqs0, seen, reqs)
      modifies this
      ensures Valid() && cancelling == None && cancelled == old(cancelled) && History(reqs0, seen + [now], reqs)
      ensures called.None? ==> Passing(list, seen + [now], context, first, pos') && calls == old(calls)
      ensures called.None? ==> |first| - pos' < |old(first)| - pos
      ensures called.Some? ==> PassResult(list, seen + [now], context, called, first) && called.value in reqs
      ensures called.Some? ==> CalledBack(old(calls), calls, reqs, called.value, context)
    {
      ghost var r1 := reqs;
      Workers(ws);
      HistoryStep(reqs0, seen, r1, reqs);
      PassingStep(list, seen, context, first, pos, reqs);
      called, pos', now := None, pos, reqs;
      var id := first[pos];
      if reqs[id].context != context || reqs[id].ret == -EINPROGRESS {
        pos' := pos + 1;
      } else {
        Unlist(pos, context);
        if reqs[id].ret != -ECANCELED {
          called := Some(id);
        }
      }
    }

    /**
      The inner loop of posix_aio_process_queue, up to and including the first callback.  The
      lock is taken anew for every entry; `work` says what workers do before each.
     */
    method Pass(context: nat, work: nat -> seq<Work>, turn0: nat)
      returns (called: Option<Id>, turn: nat, ghost seen: seq<Requests>)
      requires Valid() && cancelling == None
      modifies this
      ensures Valid() && cancelling == None && cancelled == old(cancelled)
      ensures PassResult(old(first), seen, context, called, first) && History(old(reqs), seen, reqs)
      ensures turn == turn0 + |seen|
      ensures called.None? ==> calls == old(calls)
      ensures called.Some? ==>
        called.value in reqs && CalledBack(old(calls), calls, reqs, called.value, context)
    {
      ghost var list, reqs0 := first, reqs;
      seen, turn, called := [], turn0, None;
      var pos: nat := 0;
      PassingStart(list, context);
      while pos < |first|
        invariant Valid() && cancelling == None && cancelled == old(cancelled) && calls == old(calls)
        invariant called == None && Passing(list, seen, context, first, pos) && History(reqs0, seen, reqs)
        invariant turn == turn0 + |seen|
        decreases |first| - pos
      {
        ghost var now;
        called, pos, now := Visit(context, work(turn), pos, list, seen, reqs0);
        turn := turn + 1;
        seen := seen + [now];
        if called.Some? {
          return;
        }
      }
      PassingEnd(list, seen, context, first, pos);
    }

    /** The outer loop of posix_aio_process_queue. */
    method ProcessPasses(context: nat, work: nat -> seq<Work>) returns (result: bool, ghost began: Requests)
      requires Valid() && cancelling == None
      modifies this
      ensures Valid() && cancelling == None && cancelled == old(cancelled)
      ensures Progressed(old(reqs), began) && Progressed(began, reqs)
      ensures Drained(reqs, context, old(first), first, calls) && NewCalls(old(calls), calls, context, old(first))
      ensures (forall id :: id in first ==> !Ended(began, context, id)) && (result <==> first != old(first))
    {
      result, began := false, reqs;
      ghost var first0, reqs0, calls0 := first, reqs, calls;
      var turn := 0;
      DrainedStart(reqs, context, first, calls, cancelled);
      while true
        invariant Valid() && cancelling == None && cancelled == old(cancelled) && Progressed(reqs0, reqs)
        invariant Drained(reqs, context, first0, first, calls) && NewCalls(calls0, calls, context, first0)
        invariant |first| <= |first0| && (result <==> |first| < |first0|) && (!result ==> first == first0)
        decreases |first|
      {
        began := reqs;
        ghost var first1, calls1 := first, calls;
        var n := |first|;
        var called;
        ghost var seen;
        called, turn, seen := Pass(context, work, turn);
        PassMeaning(began, seen, reqs, context, first1, called, first);
        DrainedPass(began, reqs, context, first0, first1, first, calls1, calls, called);
        ProgressedTrans(reqs0, began, reqs);
        CallsGrow(calls0, calls1, calls, context, first0, first1, called);
        if |first| < n {
          result := true;
        }
        if called.None? {
          return;
        }
      }
    }

    /**
      posix_aio_process_queue with callbacks that leave the pool alone, while workers go on.
      `began` is the state when the last pass began: every request of the context that had ended
      by then is gone, and an ended one that is still listed finished during that pass.  A
      request that has gone was called back iff its result is not -ECANCELED, and every callback
      got the error of its I/O, 0 for a complete transfer or -EINVAL for a short one.
     */
    method ProcessQueue(context: nat, work: nat -> seq<Work>) returns (result: bool, ghost began: Requests)
      requires Valid() && cancelling == None
      modifies this
      ensures Valid() && cancelling == None && cancelled == old(cancelled) && Progressed(old(reqs), began)
      ensures Progressed(began, reqs)
      ensures forall id :: id in first ==> id in old(first) && !Ended(began, context, id)
      ensures forall id :: id in old(first) && id !in first ==>
        Ended(reqs, context, id) && (Called(calls, id) <==> reqs[id].ret != -ECANCELED)
      ensures forall i :: 0 <= i < |calls| ==>
        && calls[i].id in reqs && calls[i].context == reqs[calls[i].id].context
        && (reqs[calls[i].id].ret < 0 ==> calls[i].ret == reqs[calls[i].id].ret)
        && (reqs[calls[i].id].ret == reqs[calls[i].id].nbytes ==> calls[i].ret == 0)
        && (0 <= reqs[calls[i].id].ret && reqs[calls[i].id].ret != reqs[calls[i].id].nbytes ==>
              calls[i].ret == -EINVAL)
      ensures NewCalls(old(calls), calls, context, old(first)) && (result <==> first != old(first))
    {
      result, began := ProcessPasses(context, work);
    }
  }

  /** A single request whose I/O has failed with ECANCELED. */
  method FailedRequest() returns (pool: Pool)
    ensures fresh(pool) && pool.Valid() && pool.first == [0] && pool.calls == [] && pool.cancelled == {}
    ensures pool.cancelling == None && pool.reqs == map[0 := Request(0, 512, true, -ECANCELED)]
  {
    pool := new Pool(1);
    pool.Submit(0, 0, 512);
    var id := pool.Take();
    pool.Finish(id, -ECANCELED);
  }

  /** An I/O that fails with ECANCELED: nobody called paio_cancel, and the callback never runs. */
  method FailureIsDropped() returns (pool: Pool)
    ensures pool.Valid() && pool.first == [] && pool.calls == [] && pool.cancelled == {} && 0 in pool.reqs
  {
    pool := FailedRequest();
    var result;
    ghost var began;
    result, began := pool.ProcessQueue(0, _ => []);
    assert Ended(began, 0, 0) && 0 !in pool.first;
    NothingLeft(pool.first, 0);
    NobodyCalled(pool.reqs, pool.first, pool.calls, pool.cancelled, 0);
  }

  lemma SomeEntry(first: seq<Id>)
    ensures first == [] || exists id :: id in first
  {
    if first != [] {
      assert first[0] in first;
    }
  }

  lemma SomeCall(reqs: Requests, first: seq<Id>, calls: seq<Call>, cancelled: set<Id>)
    requires HistoryOk(reqs, first, calls, cancelled)
    ensures calls == [] || exists id :: id in reqs.Keys && Called(calls, id)
  {
    if calls != [] {
      assert calls[0].id in reqs.Keys && Called(calls, calls[0].id);
    }
  }

  lemma NothingLeft(first: seq<Id>, id: Id)
    requires id !in first && forall x :: x in first ==> x == id
    ensures first == []
  {
    SomeEntry(first);
  }

  lemma NobodyCalled(reqs: Requests, first: seq<Id>, calls: seq<Call>, cancelled: set<Id>, id: Id)
    requires HistoryOk(reqs, first, calls, cancelled) && reqs.Keys == {id} && !Called(calls, id)
    ensures calls == []
  {
    SomeCall(reqs, first, calls, cancelled);
  }

  /** What has gone was called back iff it was not cancelled; what is listed has not been called back. */
  ghost predicate Drained(reqs: Requests, context: nat, first0: seq<Id>, first: seq<Id>, calls: seq<Call>) {
    && (forall id :: id in first ==> id in first0 && !Called(calls, id))
    && (forall id :: id in first0 && id !in first ==>
          Ended(reqs, context, id) && (Called(calls, id) <==> reqs[id].ret != -ECANCELED))
  }

  lemma {:induction false} KeptLength(list: seq<Id>, seen: seq<Requests>, context: nat)
    requires |seen| == |list|
    ensures |KeptOf(list, seen, context)| <= |list|
    ensures |KeptOf(list, seen, context)| == |list| ==> KeptOf(list, seen, context) == list
  {
    if list != [] {
      var n := |list| - 1;
      KeptLength(list[..n], seen[..n], context);
      assert list == list[..n] + [list[n]];
    }
  }

  /** What a pass leaves on the list, and what it takes off it, in terms of the states before and after it. */
  ghost predicate PassEffect(before: Requests, after: Requests, context: nat, list: seq<Id>, called: Option<Id>,
                             rest: seq<Id>) {
    && |rest| <= |list| && (called.Some? ==> |rest| < |list|) && (|rest| == |list| ==> rest == list)
    && (forall id :: id in rest ==> id in list)
    && (called.Some? ==> called.value in list && called.value !in rest)
    && (called.Some? ==> Ended(after, context, called.value) && !Dropped(after, context, called.value))
    && (forall id :: id in list && id !in rest && Some(id) != called ==> Dropped(after, context, id))
    && (called.None? ==> forall id :: id in rest ==> !Ended(before, context, id))
  }

  lemma PassMeaning(before: Requests, seen: seq<Requests>, after: Requests, context: nat, list: seq<Id>,
                    called: Option<Id>, rest: seq<Id>)
    requires NoDup(list) && History(before, seen, after) && PassResult(list, seen, context, called, rest)
    requires forall id :: id in list ==> id in before
    ensures PassEffect(before, after, context, list, called, rest)
  {
    if called.None? {
      FullPass(before, seen, after, context, list);
    } else {
      var n := |seen| - 1;
      PartPass(before, seen, after, context, list, n);
      CalledPass(before, seen, after, context, list, called.value, KeptOf(list[..n], seen[..n], context), n);
    }
  }

  lemma PartPass(before: Requests, seen: seq<Requests>, after: Requests, context: nat, list: seq<Id>, n: nat)
    requires NoDup(list) && History(before, seen, after) && n <= |seen| && n <= |list|
    requires forall id :: id in list ==> id in before
    requires forall k :: 0 <= k < n ==> Stays(seen[k], context, list[k]) || Dropped(seen[k], context, list[k])
    ensures PassEffect(before, after, context, list[..n], None, KeptOf(list[..n], seen[..n], context))
  {
    assert History(before, seen[..n], after);
    assert NoDup(list[..n]) && forall id :: id in list[..n] ==> id in list;
    FullPass(before, seen[..n], after, context, list[..n]);
  }

  /** The entries before the one called back, or all of them. */
  lemma FullPass(before: Requests, seen: seq<Requests>, after: Requests, context: nat, list: seq<Id>)
    requires NoDup(list) && History(before, seen, after) && |seen| == |list| && forall id :: id in list ==> id in before
    requires forall k :: 0 <= k < |list| ==> Stays(seen[k], context, list[k]) || Dropped(seen[k], context, list[k])
    ensures PassEffect(before, after, context, list, None, KeptOf(list, seen, context))
  {
    var rest := KeptOf(list, seen, context);
    KeptLength(list, seen, context);
    KeptMembers(list, seen, context);
    forall id | id in list ensures id in rest ==> !Ended(before, context, id)
                           ensures id !in rest ==> Dropped(after, context, id)
    {
      var k :| 0 <= k < |list| && list[k] == id;
      assert Progressed(before, seen[k]) && Progressed(seen[k], after);
    }
  }

  lemma CalledPass(before: Requests, seen: seq<Requests>, after: Requests, context: nat, list: seq<Id>, id: Id,
                   kept: seq<Id>, n: nat)
    requires NoDup(list) && n < |list| && n < |seen| && list[n] == id && id in before && History(before, seen, after)
    requires Ended(seen[n], context, id) && !Dropped(seen[n], context, id)
    requires PassEffect(before, after, context, list[..n], None, kept)
    ensures PassEffect(before, after, context, list, Some(id), kept + list[n + 1..])
  {
    var rest := kept + list[n + 1..];
    assert Progressed(seen[n], after);
    assert list == list[..n] + [id] + list[n + 1..];
    assert id !in list[..n] && id !in list[n + 1..];
  }

  lemma DrainedPass(before: Requests, after: Requests, context: nat, first0: seq<Id>, first: seq<Id>, first': seq<Id>,
                    calls: seq<Call>, calls': seq<Call>, called: Option<Id>)
    requires Drained(before, context, first0, first, calls) && PassEffect(before, after, context, first, called, first')
    requires Progressed(before, after)
    requires called.None? ==> calls' == calls
    requires called.Some? ==>
      |calls'| == |calls| + 1 && calls'[..|calls|] == calls && calls'[|calls|].id == called.value
    ensures Drained(after, context, first0, first', calls')
  {
    forall id: Id ensures Called(calls', id) <==> Called(calls, id) || Some(id) == called {
      CalledMore(calls, calls', called, id);
    }
  }

  lemma DrainedStart(reqs: Requests, context: nat, first: seq<Id>, calls: seq<Call>, cancelled: set<Id>)
    requires HistoryOk(reqs, first, calls, cancelled)
    ensures Drained(reqs, context, first, first, calls)
  {
  }

  lemma CalledMore(calls: seq<Call>, calls': seq<Call>, called: Option<Id>, id: Id)
    requires called.None? ==> calls' == calls
    requires called.Some? ==>
      |calls'| == |calls| + 1 && calls'[..|calls|] == calls && calls'[|calls|].id == called.value
    ensures Called(calls', id) <==> Called(calls, id) || Some(id) == called
  {
    if called.Some? {
      assert forall i :: 0 <= i < |calls| ==> calls'[i] == calls'[..|calls|][i] == calls[i];
    }
  }

  /**
    A request that ends after its entry was looked at is left on the list: with [1, 0] listed and
    both in progress, request 1 ends between the two looks.
   */
  lemma LateEndIsMissed()
    ensures exists list: seq<Id>, before: Requests, seen: seq<Requests>, after: Requests, rest: seq<Id> ::
      && NoDup(list) && History(before, seen, after) && PassResult(list, seen, 0, None, rest)
      && exists id :: id in rest && Ended(after, 0, id)
  {
    var running := Request(0, 512, true, -EINPROGRESS);
    var before: Requests := map[0 := running, 1 := running];
    var after := before[1 := running.(ret := 512)];
    var list, seen := [1, 0], [before, after];
    assert list[..1] == [1] && [1][..0] == [] && seen[..1] == [before];
    assert KeptOf([1], [before], 0) == [] + [1];
    assert KeptOf(list, seen, 0) == [1] + [0];
    assert History(before, seen, after) && PassResult(list, seen, 0, None, list);
    assert 1 in list && Ended(after, 0, 1);
  }

  /** What a worker may do while the main thread does not hold the lock. */
  datatype Work = TakeOne | FinishOne(id: Id, ret: int) | ExitOne

  lemma HistoryStep(before: Requests, seen: seq<Requests>, r1: Requests, r2: Requests)
    requires History(before, seen, r1) && Progressed(r1, r2)
    ensures History(before, seen + [r2], r2)
  {
    ProgressedTrans(before, r1, r2);
    forall k | 0 <= k < |seen| ensures Progressed(seen[k], r2) {
      ProgressedTrans(seen[k], r1, r2);
    }
  }

  /** A pass under way: the entries looked at so far that stay, followed by those still to come. */
  ghost predicate Passing(list: seq<Id>, seen: seq<Requests>, context: nat, first: seq<Id>, pos: nat) {
    var i := |seen|;
    && i <= |list|
    && (forall k :: 0 <= k < i ==> Stays(seen[k], context, list[k]) || Dropped(seen[k], context, list[k]))
    && first == KeptOf(list[..i], seen, context) + list[i..] && pos == |KeptOf(list[..i], seen, context)|
  }

  lemma PassingStart(list: seq<Id>, context: nat)
    ensures Passing(list, [], context, list, 0)
  {
    assert list[..0] == [] && [] + list[0..] == list;
  }

  lemma KeptNext(list: seq<Id>, seen: seq<Requests>, context: nat, now: Requests)
    requires |seen| < |list|
    ensures KeptOf(list[..|seen| + 1], seen + [now], context) ==
            KeptOf(list[..|seen|], seen, context) + if Stays(now, context, list[|seen|]) then [list[|seen|]] else []
  {
    var i := |seen|;
    assert list[..i + 1][..i] == list[..i] && (seen + [now])[..i] == seen;
  }

  lemma PassingStep(list: seq<Id>, seen: seq<Requests>, context: nat, first: seq<Id>, pos: nat, now: Requests)
    requires Passing(list, seen, context, first, pos) && pos < |first|
    ensures |seen| < |list| && first[pos] == list[|seen|]
    ensures Stays(now, context, first[pos]) ==> Passing(list, seen + [now], context, first, pos + 1)
    ensures Dropped(now, context, first[pos]) ==>
      Passing(list, seen + [now], context, first[..pos] + first[pos + 1..], pos)
    ensures Ended(now, context, first[pos]) && !Dropped(now, context, first[pos]) ==>
      PassResult(list, seen + [now], context, Some(first[pos]), first[..pos] + first[pos + 1..])
  {
    var i := |seen|;
    var kept := KeptOf(list[..i], seen, context);
    SplitAt(kept, list, i, first);
    KeptNext(list, seen, context, now);
    assert (seen + [now])[..i] == seen;
  }

  lemma SplitAt(kept: seq<Id>, list: seq<Id>, i: nat, first: seq<Id>)
    requires i <= |list| && first == kept + list[i..] && |kept| < |first|
    ensures i < |list| && first[|kept|] == list[i] && first[..|kept|] == kept && first[|kept| + 1..] == list[i + 1..]
    ensures first == kept + [list[i]] + list[i + 1..]
  {
    assert list[i..] == [list[i]] + list[i + 1..];
  }

  lemma PassingEnd(list: seq<Id>, seen: seq<Requests>, context: nat, first: seq<Id>, pos: nat)
    requires Passing(list, seen, context, first, pos) && pos >= |first|
    ensures PassResult(list, seen, context, None, first)
  {
    assert list[..|list|] == list && |list[|seen|..]| == 0;
    assert KeptOf(list[..|seen|], seen, context) + [] == KeptOf(list[..|seen|], seen, context);
  }

  function CallsAfter(calls: seq<Call>, reqs: Requests, context: nat, id: Id): seq<Call>
    requires id in reqs
  {
    if reqs[id].ret == -ECANCELED then calls else calls + [Call(id, context, Result(reqs[id]))]
  }

  /** The callback of one more request has run, in this context, with the result of its I/O. */
  ghost predicate CalledBack(calls: seq<Call>, calls': seq<Call>, reqs: Requests, id: Id, context: nat) {
    && |calls'| == |calls| + 1 && calls'[..|calls|] == calls && id in reqs
    && calls'[|calls|].id == id && calls'[|calls|].context == context
    && (reqs[id].ret < 0 ==> calls'[|calls|].ret == reqs[id].ret)
    && (reqs[id].ret == reqs[id].nbytes ==> calls'[|calls|].ret == 0)
    && (0 <= reqs[id].ret && reqs[id].ret != reqs[id].nbytes ==> calls'[|calls|].ret == -EINVAL)
  }

  /** The callbacks since calls0 are of requests that were listed, in this context. */
  ghost predicate NewCalls(calls0: seq<Call>, calls: seq<Call>, context: nat, first0: seq<Id>) {
    && |calls0| <= |calls| && calls[..|calls0|] == calls0
    && forall i :: |calls0| <= i < |calls| ==> calls[i].context == context && calls[i].id in first0
  }

  lemma CallsGrow(calls0: seq<Call>, calls: seq<Call>, calls': seq<Call>, context: nat, first0: seq<Id>,
                  first: seq<Id>, called: Option<Id>)
    requires NewCalls(calls0, calls, context, first0) && forall id :: id in first ==> id in first0
    requires called.None? ==> calls' == calls
    requires called.Some? ==>
      && called.value in first && |calls'| == |calls| + 1 && calls'[..|calls|] == calls
      && calls'[|calls|].id == called.value && calls'[|calls|].context == context
    ensures NewCalls(calls0, calls', context, first0)
  {
    if called.Some? {
      assert forall i :: 0 <= i < |calls| ==> calls'[i] == calls'[..|calls|][i];
      assert calls'[..|calls0|] == calls'[..|calls|][..|calls0|];
    }
  }

  lemma RemoveAt(s: seq<Id>, i: nat)
    requires NoDup(s) && i < |s|
    ensures var r := s[..i] + s[i + 1..]; NoDup(r) && forall x :: x in r <==> x in s && x != s[i]
  {
    var r := s[..i] + s[i + 1..];
    assert forall k :: 0 <= k < |r| ==> r[k] == s[if k < i then k else k + 1];
    forall x | x in s && x != s[i] ensures x in r {
      var k :| 0 <= k < |s| && s[k] == x;
      assert r[if k < i then k else k - 1] == x;
    }
  }

  /** No worker has to do with a request that has ended. */
  lemma EndedIsIdle(reqs: Requests, queue: seq<Id>, first: seq<Id>, running: set<Id>, id: Id)
    requires ListsOk(reqs, queue, first, running, None) && id in first && reqs[id].ret != -EINPROGRESS
    ensures id !in queue && id !in running
  {
  }
}
