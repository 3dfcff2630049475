/** The list of active timers (qemu-timer.c): linked in the order of their deadlines. */
module Timers {
  import opened Collections

  type Ptr = nat

  datatype Timer = Timer(expire: int, next: Option<Ptr>)

  type Memory = map<Ptr, Timer>

  predicate List(m: Memory, head: Option<Ptr>, s: seq<Ptr>)
    decreases |s|
  {
    if s == [] then head == None else head == Some(s[0]) && s[0] in m && List(m, m[s[0]].next, s[1..])
  }

  ghost predicate Sorted(m: Memory, s: seq<Ptr>) {
    && (forall i :: 0 <= i < |s| ==> s[i] in m)
    && (forall i, j :: 0 <= i < j < |s| ==> m[s[i]].expire <= m[s[j]].expire)
  }

  lemma {:induction false} SameList(m: Memory, m': Memory, head: Option<Ptr>, s: seq<Ptr>)
    requires List(m, head, s) && forall t :: t in s && t in m ==> t in m' && m'[t].next == m[t].next
    ensures List(m', head, s)
    decreases |s|
  {
    if s != [] {
      SameList(m, m', m[s[0]].next, s[1..]);
    }
  }

  lemma {:induction false} ListIn(m: Memory, head: Option<Ptr>, s: seq<Ptr>)
    requires List(m, head, s)
    ensures forall t :: t in s ==> t in m
    decreases |s|
  {
    if s != [] {
      ListIn(m, m[s[0]].next, s[1..]);
    }
  }

  /** The list from position i on hangs off the i-th link. */
  lemma {:induction false} Suffix(m: Memory, head: Option<Ptr>, s: seq<Ptr>, i: nat)
    requires List(m, head, s) && 0 < i <= |s|
    ensures s[i - 1] in m && List(m, m[s[i - 1]].next, s[i..])
    decreases i
  {
    if i > 1 {
      Suffix(m, m[s[0]].next, s[1..], i - 1);
      assert s[1..][i - 1..] == s[i..];
    }
  }

  ghost predicate SameNext(m: Memory, m': Memory, s: seq<Ptr>) {
    forall t :: t in s && t in m ==> t in m' && m'[t].next == m[t].next
  }

  lemma SameNextTail(m: Memory, m': Memory, s: seq<Ptr>)
    requires SameNext(m, m', s) && s != []
    ensures SameNext(m, m', s[1..]) && s[0] in s
  {
  }

  /** Rewriting one link: the list up to it, followed by another list. */
  lemma {:induction false} Splice(m: Memory, m': Memory, head: Option<Ptr>, s: seq<Ptr>, i: nat, rest: seq<Ptr>)
    requires List(m, head, s) && 0 < i <= |s| && SameNext(m, m', s[..i - 1])
    requires s[i - 1] in m' && List(m', m'[s[i - 1]].next, rest)
    ensures List(m', head, s[..i] + rest)
    decreases i
  {
    var r := s[..i] + rest;
    assert r[0] == s[0];
    if i == 1 {
      assert r[1..] == rest;
    } else {
      SameNextTail(m, m', s[..i - 1]);
      assert s[..i - 1][1..] == s[1..][..i - 2];
      Splice(m, m', m[s[0]].next, s[1..], i - 1, rest);
      assert r[1..] == s[1..][..i - 1] + rest;
    }
  }

  /** Where a timer for time e goes: after all timers that are due by then. */
  function Position(m: Memory, s: seq<Ptr>, e: int): (i: nat)
    requires forall t :: t in s ==> t in m
    ensures i <= |s| && (forall j :: 0 <= j < i ==> m[s[j]].expire <= e) && (i < |s| ==> m[s[i]].expire > e)
  {
    if s == [] || m[s[0]].expire > e then 0 else 1 + Position(m, s[1..], e)
  }

  lemma {:induction false} PositionIs(m: Memory, s: seq<Ptr>, e: int, i: nat)
    requires (forall t :: t in s ==> t in m) && i <= |s|
    requires (forall j :: 0 <= j < i ==> m[s[j]].expire <= e) && (i < |s| ==> m[s[i]].expire > e)
    ensures Position(m, s, e) == i
  {
    if i > 0 {
      PositionIs(m, s[1..], e, i - 1);
    }
  }

  /** The list with a timer for time e inserted. */
  function Insert(m: Memory, s: seq<Ptr>, e: int, x: Ptr): seq<Ptr>
    requires forall t :: t in s ==> t in m
  {
    if s == [] || m[s[0]].expire > e then [x] + s else [s[0]] + Insert(m, s[1..], e, x)
  }

  lemma {:induction false} InsertIs(m: Memory, s: seq<Ptr>, e: int, x: Ptr)
    requires forall t :: t in s ==> t in m
    ensures var i := Position(m, s, e); Insert(m, s, e, x) == s[..i] + ([x] + s[i..])
  {
    if s == [] || m[s[0]].expire > e {
      assert s[..0] == [] && s[0..] == s;
      assert [] + ([x] + s) == [x] + s;
    } else {
      var i := Position(m, s[1..], e);
      InsertIs(m, s[1..], e, x);
      assert s[1..][..i] == s[1..i + 1] && s[1..][i..] == s[i + 1..];
      assert [s[0]] + (s[1..i + 1] + ([x] + s[i + 1..])) == s[..i + 1] + ([x] + s[i + 1..]);
    }
  }

  function Max0(e: int): (r: int)
    ensures 0 <= r && e <= r && (r == 0 || r == e)
  {
    if e < 0 then 0 else e
  }

  /** Listed timers and their deadlines agree. */
  ghost predicate Agree(m: Memory, s: seq<Ptr>) {
    && NoDup(s) && Sorted(m, s)
    && (forall t :: t in m ==> m[t].expire >= -1)
    && (forall t :: t in m ==> (t in s <==> m[t].expire != -1))
  }

  /** A sorted list starts with its smallest element. */
  lemma SortedHead(m: Memory, s: seq<Ptr>)
    requires Sorted(m, s) && s != []
    ensures Sorted(m, s[1..]) && s[0] in m && forall t :: t in s ==> t in m && m[s[0]].expire <= m[t].expire
  {
  }

  lemma SortedCons(m: Memory, x: Ptr, s: seq<Ptr>)
    requires Sorted(m, s) && x in m && forall t :: t in s && t in m ==> m[x].expire <= m[t].expire
    ensures Sorted(m, [x] + s)
  {
    var r := [x] + s;
    assert forall i :: 0 < i < |r| ==> r[i] == s[i - 1];
    assert forall i :: 0 <= i < |s| ==> s[i] in s;
  }

  lemma {:induction false} WithoutSorted(m: Memory, s: seq<Ptr>, x: Ptr)
    requires Sorted(m, s) && NoDup(s)
    ensures Sorted(m, Drop(s, x))
  {
    if s != [] {
      SortedHead(m, s);
      if s[0] != x {
        assert NoDup(s[1..]);
        WithoutSorted(m, s[1..], x);
        DropMembers(s[1..], x);
        SortedCons(m, s[0], Drop(s[1..], x));
      }
    }
  }

  lemma SortedSame(m: Memory, m': Memory, s: seq<Ptr>)
    requires Sorted(m, s) && forall t :: t in s && t in m ==> t in m' && m'[t].expire == m[t].expire
    ensures Sorted(m', s)
  {
    forall i | 0 <= i < |s| ensures s[i] in m' && m'[s[i]].expire == m[s[i]].expire {
      assert s[i] in s;
    }
  }

  lemma WithoutAgrees(m: Memory, s: seq<Ptr>, x: Ptr, m': Memory)
    requires Agree(m, s) && x in m && m'.Keys == m.Keys && m'[x].expire == -1
    requires forall t :: t in m && t != x ==> m'[t].expire == m[t].expire
    ensures Agree(m', Drop(s, x)) && x !in Drop(s, x)
  {
    DropMembers(s, x);
    WithoutSorted(m, s, x);
    SortedSame(m, m', Drop(s, x));
  }

  lemma {:induction false} InsertMembers(m: Memory, s: seq<Ptr>, e: int, x: Ptr)
    requires NoDup(s) && x !in s && forall t :: t in s ==> t in m
    ensures NoDup(Insert(m, s, e, x)) && forall y :: y in Insert(m, s, e, x) <==> y in s || y == x
  {
    if !(s == [] || m[s[0]].expire > e) {
      assert s == [s[0]] + s[1..];
      assert s[0] !in s[1..];
      InsertMembers(m, s[1..], e, x);
    }
  }

  lemma {:induction false} InsertSorted(m: Memory, s: seq<Ptr>, e: int, x: Ptr, m': Memory)
    requires Sorted(m, s) && NoDup(s) && x !in s && x in m' && m'[x].expire == Max0(e) && forall t :: t in s ==> t in m
    requires forall t :: t in s && t in m ==> t in m' && m'[t].expire == m[t].expire && m[t].expire >= 0
    ensures Sorted(m', Insert(m, s, e, x))
  {
    SortedSame(m, m', s);
    if s == [] {
      assert Sorted(m', [x] + s);
    } else {
      SortedHead(m, s);
      if m[s[0]].expire > e {
        SortedCons(m', x, s);
      } else {
        assert s[0] in s && NoDup(s[1..]) && forall t :: t in s[1..] ==> t in s;
        InsertSorted(m, s[1..], e, x, m');
        InsertMembers(m, s[1..], e, x);
        SortedCons(m', s[0], Insert(m, s[1..], e, x));
      }
    }
  }

  lemma InsertAgrees(m: Memory, s: seq<Ptr>, x: Ptr, e: int, m': Memory)
    requires Agree(m, s) && x in m && x !in s && m'.Keys == m.Keys && m'[x].expire == Max0(e)
    requires forall t :: t in m && t != x ==> m'[t].expire == m[t].expire
    requires forall t :: t in s ==> t in m
    ensures Agree(m', Insert(m, s, e, x))
  {
    InsertMembers(m, s, e, x);
    InsertSorted(m, s, e, x, m');
  }

  class TimerList {
    var mem: Memory
    var head: Option<Ptr>
    ghost var active: seq<Ptr>

    /** The list is in deadline order, without repetition, and holds exactly the timers that have a deadline. */
    ghost predicate Valid()
      reads this
    {
      List(mem, head, active) && Agree(mem, active)
    }

    constructor ()
      ensures Valid() && active == [] && mem == map[]
    {
      mem, head := map[], None;
      active := [];
    }

    /** timer_init */
    method Init(ts: Ptr)
      requires Valid() && ts !in active
      modifies this
      ensures Valid() && active == old(active) && ts in mem && mem[ts].expire == -1 && mem == old(mem)[ts := mem[ts]]
    {
      var t := Timer(-1, if ts in mem then mem[ts].next else None);
      ListIn(mem, head, active);
      SameList(mem, mem[ts := t], head, active);
      SortedSame(mem, mem[ts := t], active);
      mem := mem[ts := t];
    }

    /** The walk of timer_del_locked: ts on the list, and the timer before it. */
    method FindBefore(ts: Ptr) returns (prev: Option<Ptr>, found: bool, ghost i: nat)
      requires List(mem, head, active)
      ensures found <==> ts in active
      ensures found ==> i < |active| && active[i] == ts && prev == if i == 0 then None else Some(active[i - 1])
    {
      prev := None;
      var t := head;
      i := 0;
      while t != None && t != Some(ts)
        invariant i <= |active| && List(mem, t, active[i..]) && t == (if i < |active| then Some(active[i]) else None)
        invariant prev == (if i == 0 then None else Some(active[i - 1])) && ts !in active[..i]
        decreases |active| - i
      {
        assert active[i..][1..] == active[i + 1..] && active[i..][0] == active[i];
        assert active[..i + 1] == active[..i] + [active[i]];
        prev := t;
        t := mem[t.value].next;
        i := i + 1;
      }
      found := t != None;
      if !found {
        assert active[..i] == active;
      }
    }

    /** timer_del_locked */
    method Del(ts: Ptr)
      requires Valid() && ts in mem
      modifies this
      ensures Valid() && active == Drop(old(active), ts) && mem.Keys == old(mem).Keys && ts !in active
      ensures forall t :: t in mem ==> mem[t].expire == if t == ts then -1 else old(mem)[t].expire
    {
      var prev, found;
      ghost var i;
      prev, found, i := FindBefore(ts);
      ghost var m0, s := mem, active;
      mem := mem[ts := mem[ts].(expire := -1)];
      SameList(m0, mem, head, s);
      if found {
        UnlinkAt(ts, prev, i);
        DropAt(s, i);
      } else {
        DropAbsent(s, ts);
      }
      active := Drop(s, ts);
      WithoutAgrees(m0, s, ts, mem);
    }

    /** The link to the i-th timer is made to skip it. */
    method UnlinkAt(ts: Ptr, prev: Option<Ptr>, ghost i: nat)
      requires List(mem, head, active) && NoDup(active) && i < |active| && active[i] == ts && ts in mem
      requires prev == if i == 0 then None else Some(active[i - 1])
      modifies this`mem, this`head
      ensures List(mem, head, active[..i] + active[i + 1..])
      ensures mem.Keys == old(mem).Keys && forall t :: t in mem ==> mem[t].expire == old(mem)[t].expire
    {
      ghost var m1 := mem;
      Suffix(mem, head, active, i + 1);
      if prev == None {
        head := mem[ts].next;
        assert active[..0] + active[1..] == active[1..];
      } else {
        Suffix(mem, head, active, i);
        mem := mem[prev.value := mem[prev.value].(next := mem[ts].next)];
        Unlink(m1, mem, head, active, i);
      }
    }

    /** The walk of timer_mod_ns_locked: the last timer that is due at time e. */
    method FindPlace(e: int) returns (prev: Option<Ptr>, ghost i: nat)
      requires List(mem, head, active)
      ensures (forall t :: t in active ==> t in mem) && i == Position(mem, active, e)
      ensures prev == if i == 0 then None else Some(active[i - 1])
    {
      ListIn(mem, head, active);
      prev := None;
      var t := head;
      i := 0;
      while t != None && mem[t.value].expire <= e
        invariant i <= |active| && List(mem, t, active[i..]) && t == (if i < |active| then Some(active[i]) else None)
        invariant prev == if i == 0 then None else Some(active[i - 1])
        invariant forall j :: 0 <= j < i ==> mem[active[j]].expire <= e
        decreases |active| - i
      {
        assert active[i..][1..] == active[i + 1..] && active[i..][0] == active[i];
        prev := t;
        t := mem[t.value].next;
        i := i + 1;
      }
      PositionIs(mem, active, e, i);
    }

    /** timer_mod_ns_locked; whether the timer is now the first one. */
    method Add(ts: Ptr, e: int) returns (rearm: bool)
      requires Valid() && ts in mem && ts !in active
      modifies this
      ensures (forall t :: t in old(active) ==> t in old(mem)) && Valid()
      ensures active == Insert(old(mem), old(active), e, ts)
      ensures var i := Position(old(mem), old(active), e); active == old(active)[..i] + ([ts] + old(active)[i..])
      ensures mem.Keys == old(mem).Keys && forall t :: t in mem ==>
        mem[t].expire == if t == ts then Max0(e) else old(mem)[t].expire
      ensures rearm <==> head == Some(ts)
    {
      var prev;
      ghost var i;
      prev, i := FindPlace(e);
      ghost var m0, s := mem, active;
      InsertIs(m0, s, e, ts);
      LinkAt(ts, e, prev, i);
      InsertAgrees(m0, s, ts, e, mem);
      active := Insert(m0, s, e, ts);
      rearm := prev == None;
      HeadIs(mem, head, s, i, ts);
    }

    /** The timer gets its deadline and goes after prev. */
    method LinkAt(ts: Ptr, e: int, prev: Option<Ptr>, ghost i: nat)
      requires List(mem, head, active) && NoDup(active) && ts in mem && ts !in active && i <= |active|
      requires prev == (if i == 0 then None else Some(active[i - 1])) && (i > 0 ==> active[i - 1] in mem)
      modifies this`mem, this`head
      ensures List(mem, head, active[..i] + ([ts] + active[i..]))
      ensures mem.Keys == old(mem).Keys && forall t :: t in mem ==>
        mem[t].expire == if t == ts then Max0(e) else old(mem)[t].expire
    {
      ghost var m0 := mem;
      var next := if prev == None then head else mem[prev.value].next;
      assert i > 0 ==> active[i - 1] in active;
      mem := mem[ts := Timer(Max0(e), next)];
      ghost var m1 := mem;
      if prev == None {
        head := Some(ts);
      } else {
        mem := mem[prev.value := mem[prev.value].(next := Some(ts))];
      }
      LinkIn(m0, m1, mem, old(head), head, active, i, ts);
    }

    /** timer_mod_ns */
    method Mod(ts: Ptr, e: int) returns (rearm: bool)
      requires Valid() && ts in mem
      modifies this
      ensures Valid() && mem.Keys == old(mem).Keys && ts in active
      ensures forall t :: t in mem ==> mem[t].expire == if t == ts then Max0(e) else old(mem)[t].expire
      ensures rearm <==> head == Some(ts)
    {
      Del(ts);
      rearm := Add(ts, e);
    }

    /** timer_mod_anticipate_ns */
    method ModAnticipate(ts: Ptr, e: int) returns (rearm: bool)
      requires Valid() && ts in mem
      modifies this
      ensures Valid() && mem.Keys == old(mem).Keys && ts in active
      ensures forall t :: t in mem && t != ts ==> mem[t].expire == old(mem)[t].expire
      ensures mem[ts].expire == if old(mem)[ts].expire == -1 || old(mem)[ts].expire > e then Max0(e)
        else old(mem)[ts].expire
      ensures rearm <==> (old(mem)[ts].expire == -1 || old(mem)[ts].expire > e) && head == Some(ts)
    {
      if mem[ts].expire == -1 || mem[ts].expire > e {
        if mem[ts].expire != -1 {
          Del(ts);
        }
        rearm := Add(ts, e);
      } else {
        rearm := false;
      }
    }

    /** timerlist_deadline_ns: the time to the soonest deadline, 0 if it has passed, -1 if there is none. */
    method Deadline(enabled: bool, now: int) returns (d: int)
      requires Valid()
      ensures d == -1 <==> !enabled || forall t :: t in mem ==> mem[t].expire == -1
      ensures d != -1 ==> d >= 0 && (exists t :: t in active && t in mem && d == Max0(mem[t].expire - now))
      ensures d != -1 ==> forall t :: t in mem && mem[t].expire != -1 ==> d <= Max0(mem[t].expire - now)
    {
      if !enabled {
        return -1;
      }
      if head == None {
        return -1;
      }
      var t := head.value;
      SortedHead(mem, active);
      assert t in active;
      d := Max0(mem[t].expire - now);
    }

    /** One operation of a callback. */
    method Perform(op: Op)
      requires Valid() && op.t in mem
      modifies this
      ensures Valid() && mem.Keys == old(mem).Keys
      ensures forall t :: t in mem ==>
        mem[t].expire == if t == op.t then NewExpire(old(mem)[t].expire, op) else old(mem)[t].expire
    {
      match op {
        case Disarm(t) => Del(t);
        case Arm(t, e) => var _ := Mod(t, e);
        case ArmSooner(t, e) => var _ := ModAnticipate(t, e);
      }
    }

    method PerformAll(ops: seq<Op>)
      requires Valid() && AllKnown(ops, mem.Keys)
      modifies this
      ensures Valid() && Performed(old(mem), mem, ops)
    {
      var i := 0;
      ghost var m0 := mem;
      while i < |ops|
        invariant 0 <= i <= |ops| && Valid() && Performed(m0, mem, ops[..i])
      {
        ghost var m1 := mem;
        Perform(ops[i]);
        PerformedNext(m0, m1, mem, ops, i);
        i := i + 1;
      }
      assert ops[..i] == ops;
    }

    /** The first timer, taken off the list before its callback runs. */
    method Pop() returns (ts: Ptr)
      requires Valid() && head != None
      modifies this
      ensures Valid() && old(active) != [] && ts == old(active)[0] && active == old(active)[1..] && ts in old(mem)
      ensures mem.Keys == old(mem).Keys && forall t :: t in mem ==>
        mem[t].expire == if t == ts then -1 else old(mem)[t].expire
    {
      ghost var m0, s := mem, active;
      ts := head.value;
      head := mem[ts].next;
      mem := mem[ts := Timer(-1, None)];
      assert s[0] !in s[1..];
      SameList(m0, mem, head, s[1..]);
      WithoutAgrees(m0, s, ts, mem);
      assert Drop(s, ts) == s[1..];
      active := s[1..];
    }

    /** One round of timerlist_run_timers: the first timer, which is due, is taken off and its callback runs. */
    method Fire(now: int, callbacks: Ptr -> seq<Op>) returns (f: Firing)
      requires Valid() && head.Some? && head.value in mem && mem[head.value].expire <= now
      requires forall t :: AllKnown(callbacks(t), mem.Keys)
      modifies this
      ensures Valid() && mem.Keys == old(mem).Keys && Soonest(old(mem), f, now)
      ensures forall t :: t in mem ==>
        mem[t].expire == AfterOps(if t == f.t then -1 else old(mem)[t].expire, t, callbacks(f.t))
    {
      FirstIsSoonest(mem, head, active);
      var deadline := mem[head.value].expire;
      var ts := Pop();
      PerformAll(callbacks(ts));
      f := Firing(ts, deadline);
    }

    /** The same with callbacks that arm timers only for times after `now`. */
    method FireFirst(now: int, callbacks: Ptr -> seq<Op>) returns (f: Firing)
      requires Valid() && head.Some? && head.value in mem && mem[head.value].expire <= now
      requires forall t :: AllLater(callbacks(t), mem.Keys, now)
      modifies this
      ensures Valid() && Later(old(mem), mem, now) && FiredFirst(old(mem), mem, f, now)
      ensures forall t :: t in mem && t != f.t && !Names(callbacks(f.t), t) ==> mem[t].expire == old(mem)[t].expire
    {
      f := Fire(now, callbacks);
      forall t | t in mem
        ensures (t == f.t ==> mem[t].expire == -1 || mem[t].expire > now)
        ensures t != f.t ==> mem[t].expire == old(mem)[t].expire || mem[t].expire == -1 || mem[t].expire > now
        ensures t != f.t && !Names(callbacks(f.t), t) ==> mem[t].expire == old(mem)[t].expire
      {
        AfterOpsLater(if t == f.t then -1 else old(mem)[t].expire, t, callbacks(f.t), mem.Keys, now);
      }
    }

    /**
      The first n rounds of timerlist_run_timers with any callbacks: the list stays valid, every
      round fires a timer that is due, and fewer rounds mean that none is due.
     */
    method RunRounds(now: int, callbacks: Ptr -> seq<Op>, n: nat) returns (fired: seq<Firing>)
      requires Valid() && forall t :: AllKnown(callbacks(t), mem.Keys)
      modifies this
      ensures Valid() && mem.Keys == old(mem).Keys && |fired| <= n && (|fired| < n ==> NoneDue(mem, now))
      ensures forall i :: 0 <= i < |fired| ==> fired[i].t in mem && 0 <= fired[i].deadline <= now
    {
      fired := [];
      FirstIsSoonest(mem, head, active);
      while |fired| < n && head != None && mem[head.value].expire <= now
        invariant Valid() && mem.Keys == old(mem).Keys && |fired| <= n && (head.Some? ==> head.value in mem)
        invariant forall i :: 0 <= i < |fired| ==> fired[i].t in mem && 0 <= fired[i].deadline <= now
        decreases n - |fired|
      {
        var f := Fire(now, callbacks);
        fired := fired + [f];
        FirstIsSoonest(mem, head, active);
      }
      FirstIsSoonest(mem, head, active);
    }

    /**
      timerlist_run_timers: fires due timers in the order of their deadlines, each at most once,
      and leaves none due.  `callbacks` says what the callback of each timer does.
     */
    method RunTimers(enabled: bool, now: int, callbacks: Ptr -> seq<Op>) returns (fired: seq<Firing>)
      requires Valid() && forall t :: AllLater(callbacks(t), mem.Keys, now)
      modifies this
      ensures Valid() && Later(old(mem), mem, now)
      ensures (if enabled then NoneDue(mem, now) else fired == [] && mem == old(mem))
      ensures InOrder(fired) && forall i :: 0 <= i < |fired| ==> Fired(old(mem), mem, fired[i], now)
      ensures forall t :: t in mem && !Involved(fired, callbacks, t) ==> mem[t].expire == old(mem)[t].expire
      ensures forall t :: t in old(mem) && enabled && Due(old(mem), t, now) ==> Involved(fired, callbacks, t)
    {
      fired := [];
      if !enabled {
        return;
      }
      ghost var m0 := mem;
      FirstIsSoonest(mem, head, active);
      while head != None && mem[head.value].expire <= now
        invariant Valid() && Later(m0, mem, now) && FiredOk(m0, mem, fired, now) && (head.Some? ==> head.value in mem)
        invariant forall t :: t in mem && !Involved(fired, callbacks, t) ==> mem[t].expire == m0[t].expire
        decreases |DueSet(mem, now)|
      {
        ghost var m1 := mem;
        var f := FireFirst(now, callbacks);
        FiredStep(m0, m1, mem, fired, f, now);
        LaterTrans(m0, m1, mem, now);
        forall t ensures Involved(fired + [f], callbacks, t) <==>
          Involved(fired, callbacks, t) || t == f.t || Names(callbacks(f.t), t) {
          InvolvedStep(fired, f, callbacks, t);
        }
        fired := fired + [f];
        FirstIsSoonest(mem, head, active);
      }
      FirstIsSoonest(mem, head, active);
    }
  }

  ghost predicate Names(ops: seq<Op>, t: Ptr) { exists i :: 0 <= i < |ops| && ops[i].t == t }

  /** Timer t has fired, or the callback of one that has fired did something to it. */
  ghost predicate Involved(fired: seq<Firing>, callbacks: Ptr -> seq<Op>, t: Ptr) {
    exists i :: 0 <= i < |fired| && (fired[i].t == t || Names(callbacks(fired[i].t), t))
  }

  lemma InvolvedStep(fired: seq<Firing>, f: Firing, callbacks: Ptr -> seq<Op>, t: Ptr)
    ensures Involved(fired + [f], callbacks, t) <==>
      Involved(fired, callbacks, t) || t == f.t || Names(callbacks(f.t), t)
  {
    var r := fired + [f];
    assert r[|fired|] == f;
    assert forall i :: 0 <= i < |fired| ==> r[i] == fired[i];
  }

  /** Fired one after the other in the order of deadlines, no timer twice. */
  ghost predicate InOrder(fired: seq<Firing>) {
    forall i, j :: 0 <= i < j < |fired| ==> fired[i].t != fired[j].t && fired[i].deadline <= fired[j].deadline
  }

  /** A due timer with the soonest deadline has fired, and is not due any more. */
  ghost predicate FiredFirst(m: Memory, m': Memory, f: Firing, now: int) {
    && Fired(m, m', f, now) && forall t :: t in m && Due(m, t, now) ==> f.deadline <= m[t].expire
  }

  /** All that has fired so far, none of it later than what is still due. */
  ghost predicate FiredOk(m0: Memory, m: Memory, fired: seq<Firing>, now: int) {
    && InOrder(fired) && (forall i :: 0 <= i < |fired| ==> Fired(m0, m, fired[i], now))
    && (forall i, t :: 0 <= i < |fired| && t in m && Due(m, t, now) ==> fired[i].deadline <= m[t].expire)
  }

  lemma FiredStep(m0: Memory, m: Memory, m': Memory, fired: seq<Firing>, f: Firing, now: int)
    requires Later(m0, m, now) && Later(m, m', now) && FiredOk(m0, m, fired, now) && FiredFirst(m, m', f, now)
    ensures FiredOk(m0, m', fired + [f], now) && |DueSet(m', now)| < |DueSet(m, now)|
  {
    assert Due(m, f.t, now);
    DueShrinks(m, m', f.t, now);
    var r := fired + [f];
    assert forall i :: 0 <= i < |r| ==> r[i] == if i < |fired| then fired[i] else f;
    forall i | 0 <= i < |fired| ensures fired[i].t != f.t && fired[i].deadline <= f.deadline {
      assert Fired(m0, m, fired[i], now);
    }
  }

  /** What a callback may do to timers. */
  datatype Op = Disarm(t: Ptr) | Arm(t: Ptr, e: int) | ArmSooner(t: Ptr, e: int)

  ghost predicate AllKnown(ops: seq<Op>, timers: set<Ptr>) { forall i :: 0 <= i < |ops| ==> ops[i].t in timers }

  /** Timers are armed only for times after now. */
  ghost predicate AllLater(ops: seq<Op>, timers: set<Ptr>, now: int) {
    forall i :: 0 <= i < |ops| ==> ops[i].t in timers && (ops[i].Disarm? || ops[i].e > now)
  }

  /** The deadline of the timer that an operation is about. */
  function NewExpire(cur: int, op: Op): int {
    match op
    case Disarm(_) => -1
    case Arm(_, e) => Max0(e)
    case ArmSooner(_, e) => if cur == -1 || cur > e then Max0(e) else cur
  }

  /** The deadline of timer t after some operations. */
  function AfterOps(cur: int, t: Ptr, ops: seq<Op>): int {
    if ops == [] then cur
    else
      var n := |ops| - 1;
      var v := AfterOps(cur, t, ops[..n]);
      if ops[n].t == t then NewExpire(v, ops[n]) else v
  }

  ghost predicate Performed(m: Memory, m': Memory, ops: seq<Op>) {
    m'.Keys == m.Keys && forall t :: t in m ==> m'[t].expire == AfterOps(m[t].expire, t, ops)
  }

  lemma PerformedNext(m0: Memory, m1: Memory, m2: Memory, ops: seq<Op>, i: nat)
    requires i < |ops| && Performed(m0, m1, ops[..i]) && m2.Keys == m1.Keys
    requires forall t :: t in m1 ==>
      m2[t].expire == if t == ops[i].t then NewExpire(m1[t].expire, ops[i]) else m1[t].expire
    ensures Performed(m0, m2, ops[..i + 1])
  {
    assert ops[..i + 1][..i] == ops[..i];
  }

  lemma {:induction false} AfterOpsLater(cur: int, t: Ptr, ops: seq<Op>, timers: set<Ptr>, now: int)
    requires AllLater(ops, timers, now)
    ensures var v := AfterOps(cur, t, ops); (v == cur || v == -1 || v > now) && (!Names(ops, t) ==> v == cur)
  {
    if ops != [] {
      var n := |ops| - 1;
      AfterOpsLater(cur, t, ops[..n], timers, now);
      assert Names(ops[..n], t) || ops[n].t == t ==> Names(ops, t) by {
        assert forall i :: 0 <= i < n ==> ops[..n][i] == ops[i];
      }
    }
  }

  /** f is a due timer with the soonest deadline. */
  ghost predicate Soonest(m: Memory, f: Firing, now: int) {
    && f.t in m && f.deadline == m[f.t].expire && 0 <= f.deadline <= now
    && forall t :: t in m && Due(m, t, now) ==> f.deadline <= m[t].expire
  }

  /** A callback that arms its own timer for a time already due: every number of rounds fires it that often. */
  method FiresForever(n: nat) returns (fired: seq<Firing>)
    ensures |fired| == n
  {
    var timers := new TimerList();
    timers.Init(0);
    var _ := timers.Mod(0, 0);
    var callbacks := (_: Ptr) => [Arm(0, 0)];
    fired := [];
    while |fired| < n
      invariant |fired| <= n && timers.Valid() && timers.mem.Keys == {0} && timers.mem[0].expire == 0
      decreases n - |fired|
    {
      FirstIsSoonest(timers.mem, timers.head, timers.active);
      var f := timers.Fire(0, callbacks);
      ArmedAgain(-1);
      fired := fired + [f];
    }
  }

  lemma ArmedAgain(cur: int)
    ensures AfterOps(cur, 0, [Arm(0, 0)]) == 0
  {
    assert [Arm(0, 0)][..0] == [];
  }

  datatype Firing = Firing(t: Ptr, deadline: int)

  predicate Due(m: Memory, t: Ptr, now: int) { t in m && 0 <= m[t].expire <= now }

  ghost predicate NoneDue(m: Memory, now: int) { forall t :: t in m ==> !Due(m, t, now) }

  /** Every timer keeps its deadline, loses it, or gets one after now. */
  ghost predicate Later(m: Memory, m': Memory, now: int) {
    m'.Keys == m.Keys && forall t :: t in m ==> m'[t].expire == m[t].expire || m'[t].expire == -1 || m'[t].expire > now
  }

  lemma LaterTrans(a: Memory, b: Memory, c: Memory, now: int)
    requires Later(a, b, now) && Later(b, c, now)
    ensures Later(a, c, now)
  {
  }

  ghost function DueSet(m: Memory, now: int): set<Ptr> { set t | t in m && Due(m, t, now) }

  lemma DueShrinks(m: Memory, m': Memory, ts: Ptr, now: int)
    requires Later(m, m', now) && ts in m && Due(m, ts, now) && !Due(m', ts, now)
    ensures |DueSet(m', now)| < |DueSet(m, now)|
  {
    var a, b := DueSet(m', now), DueSet(m, now);
    assert ts in b && ts !in a;
    assert a <= b - {ts};
    Subset(a, b - {ts});
  }

  lemma Subset(a: set<Ptr>, b: set<Ptr>)
    requires a <= b
    ensures |a| <= |b|
  {
    assert b == a + (b - a);
  }

  /** Among the timers with a deadline, the first on the list has the soonest. */
  lemma FirstIsSoonest(m: Memory, head: Option<Ptr>, s: seq<Ptr>)
    requires List(m, head, s) && Agree(m, s)
    ensures head == None ==> forall t :: t in m ==> m[t].expire == -1
    ensures head.Some? ==> head.value in m && m[head.value].expire >= 0
    ensures head.Some? ==> forall t :: t in m && m[t].expire != -1 ==> m[head.value].expire <= m[t].expire
  {
    if s != [] {
      SortedHead(m, s);
      assert s[0] in s;
    }
  }

  /** A timer that has fired had this deadline, and is not due any more. */
  ghost predicate Fired(m0: Memory, m: Memory, f: Firing, now: int) {
    f.t in m0 && f.deadline == m0[f.t].expire && 0 <= f.deadline <= now && f.t in m && !Due(m, f.t, now)
  }

  lemma HeadIs(m: Memory, head: Option<Ptr>, s: seq<Ptr>, i: nat, x: Ptr)
    requires i <= |s| && x !in s && List(m, head, s[..i] + ([x] + s[i..]))
    ensures head == Some(x) <==> i == 0
  {
    var r := s[..i] + ([x] + s[i..]);
    assert r[0] == if i == 0 then x else s[0];
    assert i > 0 ==> s[0] in s;
  }

  /** A timer linked in at position i. */
  lemma LinkIn(m: Memory, m1: Memory, m2: Memory, head: Option<Ptr>, head': Option<Ptr>, s: seq<Ptr>, i: nat, x: Ptr)
    requires List(m, head, s) && NoDup(s) && i <= |s| && x in m && x !in s && (i > 0 ==> s[i - 1] in m)
    requires x in m1 && m1 == m[x := m1[x]] && m1[x].next == if i == 0 then head else m[s[i - 1]].next
    requires if i == 0 then m2 == m1 && head' == Some(x)
             else m2 == m1[s[i - 1] := m1[s[i - 1]].(next := Some(x))] && head' == head
    ensures List(m2, head', s[..i] + ([x] + s[i..]))
  {
    var rest := [x] + s[i..];
    assert rest[0] == x && rest[1..] == s[i..];
    if i == 0 {
      assert s[..0] == [] && s[0..] == s && [] + rest == rest;
      SameList(m, m2, head, s);
    } else {
      Suffix(m, head, s, i);
      NotInParts(s, i);
      assert s[i - 1] in s;
      assert forall t :: t in s[i..] ==> t in s;
      SameList(m, m2, m[s[i - 1]].next, s[i..]);
      assert List(m2, Some(x), rest);
      Splice(m, m2, head, s, i, rest);
    }
  }

  /** Bypassing the i-th timer. */
  lemma Unlink(m: Memory, m': Memory, head: Option<Ptr>, s: seq<Ptr>, i: nat)
    requires List(m, head, s) && NoDup(s) && 0 < i < |s| && s[i] in m && s[i - 1] in m
    requires m' == m[s[i - 1] := m[s[i - 1]].(next := m[s[i]].next)]
    ensures List(m', head, s[..i] + s[i + 1..])
  {
    Suffix(m, head, s, i + 1);
    NotInParts(s, i);
    SameList(m, m', m[s[i]].next, s[i + 1..]);
    Splice(m, m', head, s, i, s[i + 1..]);
  }

  lemma NotInParts(s: seq<Ptr>, i: nat)
    requires NoDup(s) && 0 < i <= |s|
    ensures s[i - 1] !in s[..i - 1] && s[i - 1] !in s[i..] && (i < |s| ==> s[i - 1] !in s[i + 1..])
  {
  }
}
