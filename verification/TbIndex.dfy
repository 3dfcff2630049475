/**
  The indexes over translated blocks (translate-all.c): hash chains by physical pc, and for
  every physical page a list of the blocks that touch it, linked through tagged pointers.
  Both are singly linked lists that run through fields of the blocks; a link To(tb, n) says
  that the list goes on in page_next[n] of tb for n = 0, 1 and in phys_hash_next for n = 2.
 */
module TbIndex {
  import opened Collections

  type Ptr = nat

  const PAGE: nat := 4096

  datatype Link = Null | To(tb: Ptr, n: nat)

  datatype Tb = Tb(pc: nat, csBase: nat, flags: nat, size: nat, tcPtr: nat, page0: nat, page1: int,
                   pageNext0: Link, pageNext1: Link, hashNext: Link)

  type Memory = map<Ptr, Tb>

  datatype ListId = Bucket(h: nat) | Page(index: nat)

  type Heads = map<ListId, Link>

  /** tb_phys_hash_func */
  function PhysHash(physPc: nat): nat { physPc / 4 % 32768 }

  function PhysPc(b: Tb): nat { b.page0 + b.pc % PAGE }

  predicate TwoPages(b: Tb) { b.page1 >= 0 }

  /** Both parts of the code lie on the same physical page. */
  predicate Doubled(b: Tb) { TwoPages(b) && b.page1 == b.page0 }

  /** What tb_gen_code hands to tb_link_page: page-aligned, at most one page of code. */
  predicate Shaped(b: Tb) {
    && 1 <= b.size <= PAGE && b.page0 % PAGE == 0 && b.page1 >= -1
    && (TwoPages(b) <==> b.pc % PAGE + b.size > PAGE)
    && (TwoPages(b) ==> b.page1 % PAGE == 0)
  }

  predicate IsField(m: Memory, l: Link) {
    l.To? && l.tb in m && l.n <= 2 && (l.n == 1 ==> TwoPages(m[l.tb]))
  }

  function Val(m: Memory, l: Link): Link
    requires IsField(m, l)
  {
    var b := m[l.tb];
    if l.n == 0 then b.pageNext0 else if l.n == 1 then b.pageNext1 else b.hashNext
  }

  /** The list that a block's field is threaded on. */
  function Home(m: Memory, l: Link): ListId
    requires IsField(m, l)
  {
    var b := m[l.tb];
    if l.n == 0 then Page(b.page0 / PAGE) else if l.n == 1 then Page(b.page1 / PAGE) else Bucket(PhysHash(PhysPc(b)))
  }

  function SetVal(m: Memory, l: Link, v: Link): (m': Memory)
    requires IsField(m, l)
    ensures m'.Keys == m.Keys
    ensures forall k :: IsField(m', k) <==> IsField(m, k)
    ensures forall k :: IsField(m, k) ==> Val(m', k) == (if k == l then v else Val(m, k)) && Home(m', k) == Home(m, k)
    ensures forall t :: t in m ==> Fixed(m'[t], m[t])
  {
    var b := m[l.tb];
    m[l.tb := if l.n == 0 then b.(pageNext0 := v) else if l.n == 1 then b.(pageNext1 := v) else b.(hashNext := v)]
  }

  /** Everything but the link fields agrees. */
  predicate Fixed(a: Tb, b: Tb) {
    && a.pc == b.pc && a.csBase == b.csBase && a.flags == b.flags && a.size == b.size && a.tcPtr == b.tcPtr
    && a.page0 == b.page0 && a.page1 == b.page1
  }

  function HeadOf(heads: Heads, id: ListId): Link { if id in heads then heads[id] else Null }

  // ----- One list ------------------------------------------------------------

  predicate List(m: Memory, head: Link, s: seq<Link>)
    decreases |s|
  {
    if s == [] then head == Null
    else head == s[0] && IsField(m, head) && List(m, Val(m, head), s[1..])
  }

  lemma {:induction false} SameList(m: Memory, m': Memory, head: Link, s: seq<Link>)
    requires List(m, head, s)
    requires forall l :: l in s && IsField(m, l) ==> IsField(m', l) && Val(m', l) == Val(m, l)
    ensures List(m', head, s)
    decreases |s|
  {
    if s != [] {
      SameList(m, m', Val(m, head), s[1..]);
    }
  }

  /** The list from its i-th node on. */
  lemma {:induction false} ListSuffix(m: Memory, head: Link, s: seq<Link>, i: nat)
    requires List(m, head, s) && 0 < i <= |s|
    ensures IsField(m, s[i - 1]) && List(m, Val(m, s[i - 1]), s[i..])
    decreases i
  {
    if i > 1 {
      ListSuffix(m, Val(m, head), s[1..], i - 1);
      assert s[1..][i - 1..] == s[i..];
    }
  }

  /** Bypassing the i-th node from its predecessor. */
  lemma {:induction false} Bypass(m: Memory, head: Link, s: seq<Link>, i: nat)
    requires List(m, head, s) && NoDup(s) && 0 < i < |s|
    ensures IsField(m, s[i - 1]) && IsField(m, s[i])
    ensures List(SetVal(m, s[i - 1], Val(m, s[i])), head, Drop(s, s[i]))
    decreases i
  {
    ListSuffix(m, head, s, i);
    ListSuffix(m, head, s, i + 1);
    var m' := SetVal(m, s[i - 1], Val(m, s[i]));
    if i == 1 {
      assert s[1..][1..] == s[2..];
      assert forall k :: k in s[2..] ==> k != s[0];
      SameList(m, m', Val(m, s[1]), s[2..]);
    } else {
      assert s[1..][i - 2] == s[i - 1] && s[1..][i - 1] == s[i];
      Bypass(m, Val(m, head), s[1..], i - 1);
    }
  }

  lemma {:induction false} DropHead(m: Memory, head: Link, s: seq<Link>)
    requires List(m, head, s) && s != []
    ensures IsField(m, s[0]) && List(m, Val(m, s[0]), Drop(s, s[0]))
  {
  }

  // ----- All lists -----------------------------------------------------------

  type Lists = map<ListId, seq<Link>>

  function ListOf(lists: Lists, id: ListId): seq<Link> { if id in lists then lists[id] else [] }

  /** List `id` runs through exactly the fields of `on` that belong to it, each once. */
  ghost predicate ListOk(m: Memory, heads: Heads, lists: Lists, on: set<Link>, id: ListId) {
    var s := ListOf(lists, id);
    && List(m, HeadOf(heads, id), s) && NoDup(s)
    && (forall l :: l in s <==> l in on && IsField(m, l) && Home(m, l) == id)
  }

  ghost predicate Indexed(m: Memory, heads: Heads, lists: Lists, on: set<Link>) {
    forall id :: ListOk(m, heads, lists, on, id)
  }

  /** Two states that agree on list id. */
  lemma SameListOk(m: Memory, heads: Heads, lists: Lists, on: set<Link>,
                   m': Memory, heads': Heads, lists': Lists, on': set<Link>, id: ListId)
    requires ListOk(m, heads, lists, on, id)
    requires HeadOf(heads', id) == HeadOf(heads, id) && ListOf(lists', id) == ListOf(lists, id)
    requires forall l :: IsField(m, l) && l in on && Home(m, l) == id ==>
      l in on' && IsField(m', l) && Home(m', l) == id && Val(m', l) == Val(m, l)
    requires forall l :: IsField(m', l) && l in on' && Home(m', l) == id ==>
      l in on && IsField(m, l) && Home(m, l) == id
    ensures ListOk(m', heads', lists', on', id)
  {
    SameList(m, m', HeadOf(heads, id), ListOf(lists, id));
  }

  /** Threading a free field at the front of its list. */
  lemma PushFront(m: Memory, heads: Heads, lists: Lists, on: set<Link>, l: Link, id: ListId)
    requires Indexed(m, heads, lists, on) && IsField(m, l) && l !in on && Home(m, l) == id
    ensures Indexed(SetVal(m, l, HeadOf(heads, id)), heads[id := l], lists[id := [l] + ListOf(lists, id)], on + {l})
  {
    var m' := SetVal(m, l, HeadOf(heads, id));
    var heads', lists', on' := heads[id := l], lists[id := [l] + ListOf(lists, id)], on + {l};
    forall k ensures ListOk(m', heads', lists', on', k) {
      assert ListOk(m, heads, lists, on, k);
      if k == id {
        var s := ListOf(lists, id);
        assert l !in s;
        SameList(m, m', HeadOf(heads, id), s);
        assert ([l] + s)[1..] == s;
      } else {
        SameListOk(m, heads, lists, on, m', heads', lists', on', k);
      }
    }
  }

  /** Memory after the i-th node of a list has been bypassed. */
  function Bypassed(m: Memory, s: seq<Link>, i: nat): Memory
    requires i < |s| && IsField(m, s[i]) && (i > 0 ==> IsField(m, s[i - 1]))
  {
    if i == 0 then m else SetVal(m, s[i - 1], Val(m, s[i]))
  }

  /** tb_hash_remove and tb_page_remove. */
  lemma RemoveNode(m: Memory, heads: Heads, lists: Lists, on: set<Link>, id: ListId, i: nat)
    requires Indexed(m, heads, lists, on) && i < |ListOf(lists, id)|
    ensures var s := ListOf(lists, id);
      IsField(m, s[i]) && (i > 0 ==> IsField(m, s[i - 1])) && s[i] in on && Home(m, s[i]) == id
    ensures var s := ListOf(lists, id);
      Indexed(Bypassed(m, s, i), if i == 0 then heads[id := Val(m, s[0])] else heads,
              lists[id := Drop(s, s[i])], on - {s[i]})
  {
    assert ListOk(m, heads, lists, on, id);
    var s := ListOf(lists, id);
    assert s[i] in s && (i > 0 ==> s[i - 1] in s);
    var m' := Bypassed(m, s, i);
    var heads' := if i == 0 then heads[id := Val(m, s[0])] else heads;
    var lists', on' := lists[id := Drop(s, s[i])], on - {s[i]};
    DropMembers(s, s[i]);
    forall k ensures ListOk(m', heads', lists', on', k) {
      assert ListOk(m, heads, lists, on, k);
      if k == id {
        if i == 0 {
          DropHead(m, HeadOf(heads, id), s);
        } else {
          Bypass(m, HeadOf(heads, id), s, i);
        }
      } else {
        SameListOk(m, heads, lists, on, m', heads', lists', on', k);
      }
    }
  }

  /** A field that is on no list may be given any value, and a block that is on none any contents. */
  lemma FreeField(m: Memory, m': Memory, heads: Heads, lists: Lists, on: set<Link>)
    requires Indexed(m, heads, lists, on)
    requires forall l :: l in on && IsField(m, l) ==>
      IsField(m', l) && Val(m', l) == Val(m, l) && Home(m', l) == Home(m, l)
    requires forall l :: l in on ==> IsField(m, l)
    ensures Indexed(m', heads, lists, on)
  {
    forall id ensures ListOk(m', heads, lists, on, id) {
      assert ListOk(m, heads, lists, on, id);
      SameListOk(m, heads, lists, on, m', heads, lists, on, id);
    }
  }

  // ----- What a block covers -------------------------------------------------

  /** The physical address of the k-th byte of a block's guest code. */
  function ByteAt(b: Tb, k: nat): int {
    if b.pc % PAGE + k < PAGE then b.page0 + b.pc % PAGE + k else b.page1 + b.pc % PAGE + k - PAGE
  }

  /** Some guest code byte of b lies in [start, end). */
  ghost predicate Touches(b: Tb, start: int, end: int) { exists k: nat :: k < b.size && start <= ByteAt(b, k) < end }

  /** The extent of a block on one of its pages, relative to the page. */
  function ExtentStart(b: Tb, n: nat): nat { if n == 0 then b.pc % PAGE else 0 }

  function ExtentEnd(b: Tb, n: nat): nat {
    if n == 0 then b.pc % PAGE + b.size else (b.pc + b.size) % PAGE
  }

  function PageAddr(b: Tb, n: nat): int { if n == 0 then b.page0 else b.page1 }

  /** The overlap test of tb_invalidate_phys_page_range for a list entry. */
  predicate Overlaps(b: Tb, n: nat, start: int, end: int) {
    var tbStart := PageAddr(b, n) + ExtentStart(b, n);
    var tbEnd := PageAddr(b, n) + ExtentEnd(b, n);
    !(tbEnd <= start || tbStart >= end)
  }

  function MinInt(a: int, b: int): int { if a < b then a else b }

  function PageEnd(start: int): int { start / PAGE * PAGE + PAGE }

  lemma ModOnce(x: nat, y: nat)
    requires 1 <= y <= PAGE && x % PAGE + y > PAGE
    ensures (x + y) % PAGE == x % PAGE + y - PAGE
  {
    assert x + y == PAGE * (x / PAGE + 1) + (x % PAGE + y - PAGE);
  }

  /** Some guest code byte on the n-th page of b lies in [start, end). */
  ghost predicate TouchesOn(b: Tb, n: nat, start: int, end: int) {
    exists k: nat :: k < b.size && (b.pc % PAGE + k < PAGE <==> n == 0) && start <= ByteAt(b, k) < end
  }

  /**
    The overlap test on one entry is exact for the page that the range starts in: the entry
    (b, n) on that page passes it iff a code byte of that part of b lies in the range.
   */
  lemma OverlapIsTouch(b: Tb, n: nat, start: nat, end: nat)
    requires Shaped(b) && n <= 1 && (n == 1 ==> TwoPages(b)) && start < end && PageAddr(b, n) == start / PAGE * PAGE
    ensures Overlaps(b, n, start, end) <==> TouchesOn(b, n, start, MinInt(end, PageEnd(start)))
  {
    var hi := MinInt(end, PageEnd(start));
    var off := b.pc % PAGE;
    if TwoPages(b) {
      ModOnce(b.pc, b.size);
    }
    if Overlaps(b, n, start, end) {
      if n == 0 {
        var k := if b.page0 + off >= start then 0 else start - b.page0 - off;
        assert k < b.size && off + k < PAGE && start <= ByteAt(b, k) < hi;
      } else {
        var k := PAGE - off + (start - b.page1);
        assert k < b.size && off + k >= PAGE && start <= ByteAt(b, k) < hi;
      }
    }
  }

  lemma SamePage(p: int, q: int, o: nat, start: nat)
    requires p >= 0 && p % PAGE == 0 && q % PAGE == 0 && o < PAGE && q == start / PAGE * PAGE
    requires start <= p + o < PageEnd(start)
    ensures p == q
  {
  }

  // ----- The set of linked blocks --------------------------------------------

  /** Exactly the fields of linked blocks are threaded. */
  ghost predicate Threaded(m: Memory, on: set<Link>, live: set<Ptr>) {
    && (forall t :: t in live ==> t in m && Shaped(m[t]))
    && (forall l :: l in on <==> IsField(m, l) && l.tb in live)
  }

  /** The link fields may have changed, nothing else. */
  ghost predicate Same(m: Memory, m': Memory) {
    m'.Keys == m.Keys && forall t :: t in m ==> Fixed(m'[t], m[t])
  }

  /** s without the entries of block tb. */
  function DropTb(s: seq<Link>, tb: Ptr): seq<Link> {
    if s == [] then [] else if s[0].To? && s[0].tb == tb then DropTb(s[1..], tb) else [s[0]] + DropTb(s[1..], tb)
  }

  lemma {:induction false} DropTbAbsent(s: seq<Link>, tb: Ptr)
    requires forall l :: l in s && l.To? ==> l.tb != tb
    ensures DropTb(s, tb) == s
  {
    if s != [] {
      assert s[0] in s;
      DropTbAbsent(s[1..], tb);
    }
  }

  lemma {:induction false} DropTbConcat(a: seq<Link>, b: seq<Link>, tb: Ptr)
    ensures DropTb(a + b, tb) == DropTb(a, tb) + DropTb(b, tb)
  {
    if a == [] {
      assert a + b == b;
    } else {
      assert (a + b)[0] == a[0] && (a + b)[1..] == a[1..] + b;
      DropTbConcat(a[1..], b, tb);
    }
  }

  /** The first entry of block tb, where tb_hash_remove and tb_page_remove stop. */
  function FirstFor(s: seq<Link>, tb: Ptr): (l: Link)
    ensures l != Null ==> l in s && l.tb == tb
    ensures l == Null ==> forall k :: k in s && k.To? ==> k.tb != tb
  {
    if s == [] then Null else if s[0].To? && s[0].tb == tb then s[0] else FirstFor(s[1..], tb)
  }

  lemma {:induction false} FirstIs(s: seq<Link>, tb: Ptr, i: nat)
    requires i < |s| && s[i].To? && s[i].tb == tb
    requires forall j :: 0 <= j < i && s[j].To? ==> s[j].tb != tb
    ensures FirstFor(s, tb) == s[i]
  {
    if i > 0 {
      FirstIs(s[1..], tb, i - 1);
    }
  }

  lemma {:induction false} DropFirst(s: seq<Link>, tb: Ptr)
    requires FirstFor(s, tb) != Null
    ensures DropTb(Drop(s, FirstFor(s, tb)), tb) == DropTb(s, tb)
  {
    if !(s[0].To? && s[0].tb == tb) {
      DropFirst(s[1..], tb);
    }
  }

  /** A block with one entry. */
  lemma OneEntry(s: seq<Link>, l: Link)
    requires l.To? && l in s && NoDup(s) && forall k :: k in s && k.To? && k.tb == l.tb ==> k == l
    ensures FirstFor(s, l.tb) == l && DropTb(s, l.tb) == Drop(s, l)
  {
    DropFirst(s, l.tb);
    DropMembers(s, l);
    DropTbAbsent(Drop(s, l), l.tb);
  }

  /** The two entries of a block that is twice on a list stand next to each other. */
  ghost predicate Paired(s: seq<Link>, t: Ptr) {
    exists i :: 0 <= i < |s| - 1 && s[i] == To(t, 1) && s[i + 1] == To(t, 0)
  }

  lemma TwoEntries(s: seq<Link>, t: Ptr)
    requires Paired(s, t) && NoDup(s) && forall k :: k in s && k.To? && k.tb == t ==> k.n <= 1
    ensures FirstFor(s, t) == To(t, 1) && FirstFor(Drop(s, To(t, 1)), t) == To(t, 0)
    ensures DropTb(s, t) == Drop(Drop(s, To(t, 1)), To(t, 0))
  {
    var i :| 0 <= i < |s| - 1 && s[i] == To(t, 1) && s[i + 1] == To(t, 0);
    forall j | 0 <= j < i && s[j].To? ensures s[j].tb != t {
      assert s[j] in s && s[j] != s[i] && s[j] != s[i + 1];
    }
    FirstIs(s, t, i);
    DropFirst(s, t);
    DropMembers(s, To(t, 1));
    OneEntry(Drop(s, To(t, 1)), To(t, 0));
  }

  /** Where the entries of a pair are. */
  lemma PairAt(s: seq<Link>, t: Ptr, i: nat)
    requires Paired(s, t) && NoDup(s) && i < |s|
    ensures s[i] == To(t, 1) ==> i + 1 < |s| && s[i + 1] == To(t, 0)
    ensures s[i] == To(t, 0) ==> i > 0 && s[i - 1] == To(t, 1)
  {
    var k :| 0 <= k < |s| - 1 && s[k] == To(t, 1) && s[k + 1] == To(t, 0);
    assert s[i] == To(t, 1) ==> i == k;
    assert s[i] == To(t, 0) ==> i == k + 1;
  }

  lemma PairedDrop(s: seq<Link>, t: Ptr, tb: Ptr)
    requires Paired(s, t) && t != tb
    ensures Paired(DropTb(s, tb), t)
  {
    var i :| 0 <= i < |s| - 1 && s[i] == To(t, 1) && s[i + 1] == To(t, 0);
    var a, b, c := s[..i], [To(t, 1), To(t, 0)], s[i + 2..];
    assert s == a + b + c;
    DropTbConcat(a + b, c, tb);
    DropTbConcat(a, b, tb);
    DropTbAbsent(b, tb);
    var s', n := DropTb(s, tb), |DropTb(a, tb)|;
    assert s'[n] == To(t, 1) && s'[n + 1] == To(t, 0);
  }

  ghost predicate AllPaired(m: Memory, lists: Lists, live: set<Ptr>) {
    forall t :: t in live && t in m && Doubled(m[t]) ==> Paired(ListOf(lists, Page(m[t].page0 / PAGE)), t)
  }

  /** On any one list a block appears once, or twice if both of its pages are the same. */
  lemma EntriesOf(m: Memory, heads: Heads, lists: Lists, on: set<Link>, live: set<Ptr>, id: ListId, l: Link)
    requires Indexed(m, heads, lists, on) && Threaded(m, on, live) && l in ListOf(lists, id)
    ensures l in on && IsField(m, l) && Home(m, l) == id && l.tb in live && Shaped(m[l.tb])
    ensures forall k :: k in ListOf(lists, id) && k.To? && k.tb == l.tb && k != l ==>
      Doubled(m[l.tb]) && l.n + k.n == 1 && id == Page(m[l.tb].page0 / PAGE)
  {
    assert ListOk(m, heads, lists, on, id);
    forall k | k in ListOf(lists, id) && k.To? && k.tb == l.tb && k != l
      ensures Doubled(m[l.tb]) && l.n + k.n == 1 && id == Page(m[l.tb].page0 / PAGE)
    {
      var b := m[l.tb];
      assert Shaped(b);
      assert IsField(m, k) && Home(m, k) == id;
      assert TwoPages(b) && b.page0 / PAGE == b.page1 / PAGE;
    }
  }

  /** An address that a linked block touches shows up as an overlapping entry of that page's list. */
  lemma TouchIsListed(m: Memory, heads: Heads, lists: Lists, on: set<Link>, live: set<Ptr>, t: Ptr, start: nat,
                      end: nat)
    requires Indexed(m, heads, lists, on) && Threaded(m, on, live) && t in live && start < end
    requires Touches(m[t], start, MinInt(end, PageEnd(start)))
    ensures exists n :: n <= 1 && To(t, n) in ListOf(lists, Page(start / PAGE)) && Overlaps(m[t], n, start, end)
  {
    var b := m[t];
    assert Shaped(b);
    var k: nat :| k < b.size && start <= ByteAt(b, k) < MinInt(end, PageEnd(start));
    var n := if b.pc % PAGE + k < PAGE then 0 else 1;
    var o := if n == 0 then b.pc % PAGE + k else b.pc % PAGE + k - PAGE;
    assert ByteAt(b, k) == PageAddr(b, n) + o;
    SamePage(PageAddr(b, n), start / PAGE * PAGE, o, start);
    OverlapIsTouch(b, n, start, end);
    var id := Page(start / PAGE);
    assert ListOk(m, heads, lists, on, id);
    assert IsField(m, To(t, n)) && To(t, n) in on && Home(m, To(t, n)) == id;
  }

  /** Some block of the list has a code byte at offset o of the page. */
  ghost predicate CoveredBy(m: Memory, s: seq<Link>, o: int) {
    exists l :: l in s && IsField(m, l) && ExtentStart(m[l.tb], l.n) <= o < ExtentEnd(m[l.tb], l.n)
  }

  lemma CoverStep(m: Memory, s: seq<Link>, l: Link, o: int)
    requires IsField(m, l)
    ensures CoveredBy(m, s + [l], o) <==> CoveredBy(m, s, o) || ExtentStart(m[l.tb], l.n) <= o < ExtentEnd(m[l.tb], l.n)
  {
    if CoveredBy(m, s, o) {
      var k :| k in s && IsField(m, k) && ExtentStart(m[k.tb], k.n) <= o < ExtentEnd(m[k.tb], k.n);
      assert k in s + [l];
    }
    assert l in s + [l];
  }

  lemma CoverSame(m: Memory, m': Memory, s: seq<Link>, o: int)
    requires forall l :: l in s ==> IsField(m, l) && IsField(m', l) && Fixed(m'[l.tb], m[l.tb])
    ensures CoveredBy(m', s, o) <==> CoveredBy(m, s, o)
  {
  }
}
