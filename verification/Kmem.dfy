/** The kernel heap on top of the page allocator, with the ledger of who owns what. */
module Kmem {
  import opened Bytes
  import opened PageList
  import opened Ownership
  import opened Pmm

  const BIG_MAGIC := 0x4B4D_414C_554C_4C21
  const SMALL_MAX := PAGE - HDR

  function AlignUp16(x: nat): (r: nat)
    ensures r % 16 == 0 && x <= r < x + 16
  {
    (x + 15) / 16 * 16
  }

  // ----- memory, as 8-byte words -----

  function Word(mem: map<nat, nat>, a: nat): nat {
    if a in mem then mem[a] else 0
  }

  predicate HeaderAt(mem: map<nat, nat>, b: nat, n: nat) {
    Word(mem, b) == BIG_MAGIC && Word(mem, b + 8) % U32 == n && Word(mem, b + 16) == b
  }

  function WithHeader(mem: map<nat, nat>, b: nat, n: nat): map<nat, nat> {
    mem[b := BIG_MAGIC][b + 8 := n % U32][b + 16 := b][b + 24 := 0]
  }

  ghost predicate Headers(l: Ledger, mem: map<nat, nat>) {
    forall b :: b in l.bigs ==> HeaderAt(mem, b, l.bigs[b])
  }

  // ----- sizes -----

  // Pages of a page-backed block; the two sums wrap at 64 bits.
  function BigPages(size: nat): nat {
    ((size + HDR) % U64 + PAGE - 1) % U64 / PAGE
  }

  /** The block is large enough for every size that does not wrap with its header. */
  lemma BigPagesFit(size: nat)
    requires 0 < size < U64
    ensures size <= SMALL_MAX <==> size + 32 <= 4096
    ensures BigPages(size) == 0 <==> U64 - HDR - (PAGE - 1) <= size <= U64 - HDR
    ensures BigPages(size) != 0 ==> (size + HDR <= BigPages(size) * PAGE <==> size < U64 - HDR)
    ensures BigPages(size) != 0 && size < U64 - HDR ==> BigPages(size) * PAGE < size + HDR + PAGE
  {
  }

  ghost predicate HasRun(s: set<nat>, n: nat) {
    exists b :: b in s && RunOf(b, n) <= s
  }

  // ----- the bump pointer -----

  predicate Room(cur: nat, end: nat, size: nat) {
    cur != 0 && AlignUp16(cur) + size <= end
  }

  // Where a small block goes: behind the last one, or at the start of the highest idle page.
  ghost predicate SmallAt(p: nat, cur: nat, end: nat, size: nat, idle: set<nat>) {
    if Room(cur, end, size) then p == AlignUp16(cur) else p in idle && forall q :: q in idle ==> q <= p
  }

  lemma LastIsHighest(s: seq<nat>)
    requires FreeList(s) && s != []
    ensures s[|s| - 1] in Pages(s) && forall q :: q in Pages(s) ==> q <= s[|s| - 1]
  {
  }

  // The current page backs small blocks, none of which reaches past `cur`.
  ghost predicate BumpOk(l: Ledger, cur: nat, end: nat) {
    cur != 0 ==>
      && end >= PAGE && end % PAGE == 0 && end - PAGE in l.bump && end - PAGE <= cur <= end
      && forall a :: a in l.smalls && AlignDown(a) == end - PAGE ==> a + l.smalls[a] <= cur
  }

  ghost function AddSmall(l: Ledger, a: nat, size: nat): Ledger { l.(smalls := l.smalls[a := size]) }

  lemma AlignDownIs(a: nat, q: nat)
    requires q % PAGE == 0 && q <= a < q + PAGE
    ensures AlignDown(a) == q
  {
  }

  lemma BumpPlace(cur: nat, end: nat, size: nat)
    requires Room(cur, end, size) && size > 0 && PAGE <= end && end % PAGE == 0 && end - PAGE <= cur <= end
    ensures AlignDown(AlignUp16(cur)) == end - PAGE && cur <= AlignUp16(cur)
  {
    hide AlignUp16, AlignDown;
    assert (end - PAGE) % PAGE == 0;
    AlignDownIs(AlignUp16(cur), end - PAGE);
  }

  lemma SmallsMiss(l: Ledger, cur: nat, end: nat, a: nat, size: nat, b: nat)
    requires SmallsApart(l) && BumpOk(l, cur, end) && cur != 0 && b in l.smalls
    requires AlignDown(a) == end - PAGE && cur <= a && a + size <= end && size > 0
    ensures b != a && (b < a ==> b + l.smalls[b] <= a) && (a < b ==> a + size <= b)
  {
    hide AlignDown;
    assert SmallFits(l, b);
    if AlignDown(b) < AlignDown(a) { AlignedStep(AlignDown(b), AlignDown(a)); }
    if AlignDown(b) > AlignDown(a) { AlignedStep(AlignDown(a), AlignDown(b)); }
  }

  lemma AddSmallKeeps(l: Ledger, cur: nat, end: nat, size: nat)
    requires SmallsApart(l) && BumpOk(l, cur, end) && Room(cur, end, size) && size > 0
    ensures var a := AlignUp16(cur);
      && a !in l.smalls && SmallsApart(AddSmall(l, a, size)) && BumpOk(AddSmall(l, a, size), a + size, end)
      && AlignDown(a) == end - PAGE
  {
    hide AlignUp16, AlignDown;
    var a := AlignUp16(cur);
    var t := AddSmall(l, a, size);
    BumpPlace(cur, end, size);
    forall b | b in l.smalls
      ensures b != a && (b < a ==> b + l.smalls[b] <= a) && (a < b ==> a + size <= b) && SmallFits(l, b)
    {
      SmallsMiss(l, cur, end, a, size, b);
    }
    assert forall b :: b in l.smalls ==> SmallFits(t, b);
    assert SmallFits(t, a);
  }

  // A page nobody used backs no block yet.
  lemma FreshPage(l: Ledger, p: nat)
    requires Partitioned(l) && SmallsApart(l) && p in Idle(l)
    ensures SmallsApart(TakeBump(l, p)) && BumpOk(TakeBump(l, p), p, p + PAGE) && p > 0 && p % PAGE == 0
  {
    hide InBig;
    var t := TakeBump(l, p);
    forall a | a in l.smalls
      ensures SmallFits(t, a) && AlignDown(a) != p
    {
      assert SmallFits(l, a);
    }
  }

  // ----- headers -----

  lemma HeaderApart(mem: map<nat, nat>, b: nat, n: nat, c: nat, m: nat)
    requires b % PAGE == 0 && c % PAGE == 0 && b != c && HeaderAt(mem, c, m)
    ensures HeaderAt(WithHeader(mem, b, n), c, m)
  {
    if b < c { AlignedStep(b, c); } else { AlignedStep(c, b); }
  }

  lemma TakeBigHeaders(l: Ledger, mem: map<nat, nat>, b: nat, n: nat)
    requires Partitioned(l) && Headers(l, mem) && b % PAGE == 0 && b !in l.bigs && n < U32
    ensures Headers(TakeBig(l, b, n), WithHeader(mem, b, n))
  {
    hide WithHeader, HeaderAt, BigFits;
    forall c | c in l.bigs
      ensures HeaderAt(WithHeader(mem, b, n), c, l.bigs[c])
    {
      assert BigFits(l, c) ==> c % PAGE == 0 by { BigAligned(l, c); }
      HeaderApart(mem, b, n, c, l.bigs[c]);
    }
    HeaderIs(mem, b, n);
  }

  lemma BigAligned(l: Ledger, c: nat)
    requires c in l.bigs
    ensures BigFits(l, c) ==> c % PAGE == 0
  {
  }

  lemma HeaderIs(mem: map<nat, nat>, b: nat, n: nat)
    requires n < U32
    ensures HeaderAt(WithHeader(mem, b, n), b, n)
  {
  }

  // Words that changed are those of a header in a page that was idle.
  ghost predicate OnlyHeaders(l: Ledger, was: map<nat, nat>, now: map<nat, nat>) {
    forall a: nat :: Word(now, a) != Word(was, a) ==> AlignDown(a) in Idle(l) && a % PAGE < HDR
  }

  // Words that changed lie from `lo` on and before `hi`.
  ghost predicate OnlyIn(was: map<nat, nat>, now: map<nat, nat>, lo: nat, hi: nat) {
    forall a: nat :: Word(now, a) != Word(was, a) ==> lo <= a < hi
  }

  // A word with its first bytes replaced, 8 of them at most.
  function Merged(w: nat, bytes: seq<byte>): nat {
    var n := if |bytes| < 8 then |bytes| else 8;
    Rd64(bytes[..n] + ToBytes(w, 8)[n..], 0)
  }

  // Memory from a on holds the bytes; the rest of the last word is as it was.
  ghost predicate HoldsBytes(was: map<nat, nat>, now: map<nat, nat>, a: nat, bytes: seq<byte>) {
    forall j: nat :: 8 * j < |bytes| ==> Word(now, a + 8 * j) == Merged(Word(was, a + 8 * j), bytes[8 * j..])
  }

  // The whole words of the bytes, as memory from a on has them.
  ghost predicate InMemory(mem: map<nat, nat>, a: nat, bytes: seq<byte>) {
    forall j: nat :: 8 * j + 8 <= |bytes| ==> Word(mem, a + 8 * j) == Rd64(bytes, 8 * j)
  }

  lemma WholeWords(was: map<nat, nat>, now: map<nat, nat>, a: nat, bytes: seq<byte>)
    requires HoldsBytes(was, now, a, bytes)
    ensures InMemory(now, a, bytes)
  {
    hide Word, ToBytes, FromBytes;
    forall j: nat | 8 * j + 8 <= |bytes|
      ensures Word(now, a + 8 * j) == Rd64(bytes, 8 * j)
    {
      var eight := bytes[8 * j..][..8];
      assert eight + ToBytes(Word(was, a + 8 * j), 8)[8..] == eight == bytes[8 * j..8 * j + 8];
      assert eight[0..8] == eight;
    }
  }

  lemma SameWords(l: Ledger, mem: map<nat, nat>)
    ensures OnlyHeaders(l, mem, mem)
  {
  }

  lemma HeaderWords(l: Ledger, mem: map<nat, nat>, b: nat, n: nat)
    requires b in Idle(l) && b % PAGE == 0
    ensures OnlyHeaders(l, mem, WithHeader(mem, b, n))
  {
    hide Idle;
    forall a: nat | Word(WithHeader(mem, b, n), a) != Word(mem, a)
      ensures AlignDown(a) in Idle(l) && a % PAGE < HDR
    {
      AlignDownIs(a, b);
    }
  }

  /** The block at p is told from the other kind: it is page-backed, or no magic number stands before it. */
  ghost predicate Tells(l: Ledger, mem: map<nat, nat>, p: nat)
    requires p == 0 || p >= HDR
  {
    p == 0 || p - HDR in l.bigs || Word(mem, p - HDR) != BIG_MAGIC
  }

  /** A small block of that size, wherever it will be put, will not be taken for a page-backed one. */
  ghost predicate Foretold(l: Ledger, mem: map<nat, nat>, cur: nat, end: nat, size: nat) {
    0 < size <= SMALL_MAX ==>
      forall p: nat :: p >= HDR && SmallAt(p, cur, end, size, Idle(l)) ==> Word(mem, p - HDR) != BIG_MAGIC
  }

  lemma SmallIsHigh(l: Ledger, cur: nat, end: nat, size: nat, p: nat)
    requires Partitioned(l) && BumpOk(l, cur, end) && SmallAt(p, cur, end, size, Idle(l))
    ensures p >= PAGE
  {
    hide InBig, BigFits;
  }

  lemma FarInPage(p: nat)
    requires p >= HDR && AlignDown(p - HDR) != AlignDown(p)
    ensures (p - HDR) % PAGE >= HDR
  {
  }

  lemma BigIsNoBump(l: Ledger, b: nat)
    requires Partitioned(l) && b in l.bigs
    ensures b % PAGE == 0 && b !in l.bump
  {
    hide RunOf, InBig;
    assert BigFits(l, b);
    FirstOfRun(b, l.bigs[b]);
    assert b in RunOfBig(l, b);
  }

  lemma BehindHeader(p: nat)
    ensures p >= HDR && (p - HDR) % PAGE == 0 ==> AlignDown(p) == p - HDR
  {
  }

  // A small block never stands where the first block of a run would.
  lemma SmallIsNoBig(l: Ledger, p: nat)
    requires Partitioned(l) && SmallsApart(l) && p in l.smalls && p >= HDR
    ensures p - HDR !in l.bigs
  {
    hide RunOf, InBig, Partitioned, AlignDown;
    assert SmallFits(l, p);
    BehindHeader(p);
    if p - HDR in l.bigs {
      BigIsNoBump(l, p - HDR);
    }
  }

  // A block for `size` bytes is not to be had.
  ghost predicate NoBlock(cur: nat, end: nat, idle: set<nat>, size: nat) {
    if size <= SMALL_MAX then !Room(cur, end, size) && idle == {} else !HasRun(idle, BigPages(size))
  }

  // At most a small block of that size has been added.
  ghost predicate SmallMore(was: Ledger, now: Ledger, size: nat) {
    || now == was
    || (0 < size <= SMALL_MAX && exists q: nat ::
          q !in was.smalls
          && (now == AddSmall(was, q, size)
              || (AlignDown(q) in Idle(was) && now == AddSmall(TakeBump(was, AlignDown(q)), q, size))))
  }

  // A run that nobody took has been put into the free list, as far as it has room.
  ghost predicate Freed(l: Ledger, now: set<nat>, base: nat, n: nat) {
    && Idle(l) <= now <= Idle(l) + RunOf(base, n)
    && (base != 0 && base % PAGE == 0 && |Idle(l)| + n <= MAX_PAGES ==> now == Idle(l) + RunOf(base, n))
  }

  // Putting that run into the free list of ledger l adds no page.
  ghost predicate AddsNone(l: Ledger, base: nat, n: nat) {
    base == 0 || base % PAGE != 0 || RunOf(base, n) <= Idle(l) || |Idle(l)| == MAX_PAGES
  }

  lemma NothingFreed(l: Ledger, base: nat, n: nat)
    requires base == 0 || n == 0
    ensures Freed(l, Idle(l), base, n) && AddsNone(l, base, n)
  {
    assert RunOf(base, 0) == {};
  }

  lemma BigHeader(l: Ledger, mem: map<nat, nat>, b: nat)
    requires Partitioned(l) && Headers(l, mem)
    ensures b in l.bigs ==>
      b > 0 && l.bigs[b] > 0 && HeaderAt(mem, b, l.bigs[b])
  {
    assert b in l.bigs ==> BigFits(l, b);
  }

  // The 8 bytes at a belong to a live block or to a page handed out directly.
  ghost predicate Writable(l: Ledger, a: nat) {
    a % 8 == 0
    && (AlignDown(a) in l.direct || exists k :: Live(l, k) && k.start <= a && a + 8 <= k.start + k.size)
  }

  // ... or at least the first of them does.
  ghost predicate Begins(l: Ledger, a: nat) {
    a % 8 == 0 && (AlignDown(a) in l.direct || exists k :: Live(l, k) && k.start <= a < k.start + k.size)
  }

  lemma WritesMissHeaders(l: Ledger, a: nat, b: nat)
    requires Partitioned(l) && SmallsApart(l) && Begins(l, a) && b in l.bigs
    ensures a < b || a >= b + HDR
  {
    hide RunOf, InBig;
    if b <= a < b + HDR {
      assert BigFits(l, b);
      assert AlignDown(a) == b;
      FirstOfRun(b, l.bigs[b]);
      assert b in RunOfBig(l, b);
      if AlignDown(a) !in l.direct {
        var k :| Live(l, k) && k.start <= a < k.start + k.size;
        InUse(l, k, b);
      }
    }
  }

  lemma WriteKeepsHeaders(l: Ledger, mem: map<nat, nat>, a: nat, w: nat)
    requires Partitioned(l) && SmallsApart(l) && Begins(l, a) && Headers(l, mem)
    ensures Headers(l, mem[a := w])
  {
    hide Partitioned, SmallsApart, Begins;
    forall b | b in l.bigs
      ensures HeaderAt(mem[a := w], b, l.bigs[b])
    {
      WritesMissHeaders(l, a, b);
    }
  }

  // ----- room in the free list -----

  /** Putting pages back that are not idle never overflows the list. */
  lemma Headroom(l: Ledger, s: seq<nat>, r: set<nat>)
    requires FreeList(s) && Pages(s) == Idle(l) && |l.all| <= MAX_PAGES && r <= l.all && r !! Idle(l)
    ensures |s| + |r| <= MAX_PAGES
  {
    PagesCount(s);
    assert |Idle(l) + r| == |Idle(l)| + |r|;
    SubsetSize(Idle(l) + r, l.all);
  }

  lemma {:induction false} SubsetSize(a: set<nat>, b: set<nat>)
    requires a <= b
    ensures |a| <= |b|
  {
    if a != {} {
      var x :| x in a;
      SubsetSize(a - {x}, b - {x});
    }
  }

  lemma BigCount(l: Ledger, b: nat, n: nat)
    requires |l.all| <= MAX_PAGES && b % PAGE == 0 && RunOf(b, n) <= l.all
    ensures n <= MAX_PAGES
  {
    RunSize(b, n);
    SubsetSize(RunOf(b, n), l.all);
  }

  lemma TakenLast(s: seq<nat>, t: seq<nat>, p: nat)
    requires FreeList(s) && s == t + [p]
    ensures Pages(t) == Pages(s) - {p} && p in Pages(s) && FreeList(t)
  {
    assert s[|t|] == p;
    assert forall i :: 0 <= i < |t| ==> t[i] == s[i];
    forall x
      ensures x in t <==> x in s && x != p
    {
      if x in t {
        var i :| 0 <= i < |t| && t[i] == x;
        assert s[i] == x;
      }
    }
  }

  // ----- the heap -----

  class Heap {
    const pmm: Pmm
    var cur: nat
    var end: nat
    var mem: map<nat, nat>
    ghost var led: Ledger

    /** `kmem_init`, over an initialised page allocator. */
    constructor (pmm: Pmm, mem: map<nat, nat>)
      requires pmm.Valid()
      ensures this.pmm == pmm && this.mem == mem && Valid()
      ensures led == Ledger(Pages(pmm.Free()), {}, {}, map[], map[])
    {
      this.pmm := pmm;
      this.mem := mem;
      cur, end := 0, 0;
      led := Ledger(Pages(pmm.Free()), {}, {}, map[], map[]);
      new;
      PagesCount(pmm.Free());
    }

    /**
     Every page collected at start is in the free list or has exactly one other use, small
     blocks lie apart in the bump pages, and every page-backed block carries its header.
     */
    ghost predicate Valid()
      reads this, pmm, pmm.slots
    {
      && pmm.Valid() && Pages(pmm.Free()) == Idle(led) && |led.all| <= MAX_PAGES
      && Partitioned(led) && SmallsApart(led) && BumpOk(led, cur, end) && Headers(led, mem)
    }

    /** One page for a caller of its own. */
    method TakePage() returns (p: nat)
      requires Valid()
      modifies this`led, pmm`top
      ensures Valid()
      ensures p == 0 <==> Idle(old(led)) == {}
      ensures p == 0 ==> led == old(led)
      ensures p != 0 ==> p in Idle(old(led)) && led == TakeDirect(old(led), {p})
    {
      hide RunOf, InBig, BigFits;
      ghost var l, s := led, pmm.Free();
      p := pmm.AllocPage();
      if p != 0 {
        TakenLast(s, pmm.Free(), p);
        TakeDirectKeeps(l, {p});
        led := TakeDirect(l, {p});
      }
    }

    /** A page given back by the caller that holds it: back in the list, exactly once. */
    method GivePage(p: nat)
      requires Valid() && p in led.direct
      modifies this`led, pmm`top, pmm.slots
      ensures Valid() && led == GiveDirect(old(led), {p})
      ensures pmm.top == old(pmm.top) + 1
    {
      hide Idle, BigFits, Insert, SmallsApart, BumpOk, FreeList, Headers;
      ghost var l, s := led, pmm.Free();
      assert p > 0 && p % PAGE == 0 && p in l.all;
      GiveDirectKeeps(l, {p});
      Headroom(l, s, {p});
      SmallsStay(l, GiveDirect(l, {p}), cur, end);
      HeadersStay(l, GiveDirect(l, {p}), mem);
      InsertLength(s, p);
      assert p !in s by { assert p in Pages(s) ==> p in Idle(l); }
      pmm.FreePage(p);
      led := GiveDirect(l, {p});
    }

    /** A page given back by someone who does not hold it: the heap is sound afterwards only if nothing happens. */
    method FreeStray(phys: nat)
      requires Valid()
      modifies pmm`top, pmm.slots
      ensures Valid() <==> phys == 0 || |Idle(led)| == MAX_PAGES
    {
      hide Idle, AlignDown, Insert, SmallsApart, BumpOk, FreeList, Headers, Partitioned;
      PagesCount(pmm.Free());
      ghost var s := pmm.Free();
      pmm.FreePage(phys);
      assert AlignDown(phys) !in s ==> AlignDown(phys) !in Pages(s);
    }

    // The bump path of `kmalloc`.
    method Bump(size: nat) returns (p: nat)
      requires Valid() && 0 < size <= SMALL_MAX
      modifies this`cur, this`end, this`led, pmm`top
      ensures Valid()
      ensures p == 0 <==> !Room(old(cur), old(end), size) && Idle(old(led)) == {}
      ensures p == 0 ==> led == old(led) && cur == old(cur) && end == old(end)
      ensures p != 0 && Room(old(cur), old(end), size) ==> p !in old(led).smalls && led == AddSmall(old(led), p, size)
      ensures p != 0 && !Room(old(cur), old(end), size) ==>
        AlignDown(p) in Idle(old(led)) && p !in old(led).smalls
        && led == AddSmall(TakeBump(old(led), AlignDown(p)), p, size)
      ensures p != 0 ==> SmallAt(p, old(cur), old(end), size, Idle(old(led))) && cur == p + size
      ensures p != 0 ==> end == if Room(old(cur), old(end), size) then old(end) else p + PAGE
    {
      hide RunOf, Idle, BigFits, RunOfBig, AlignUp16, AlignDown, SmallsApart, Partitioned, Headers, FreeList;
      ghost var l := led;
      if !Room(cur, end, size) {
        ghost var s := pmm.Free();
        var page := pmm.AllocPage();
        if page == 0 {
          return 0;
        }
        TakenLast(s, pmm.Free(), page);
        LastIsHighest(s);
        PageIsAligned16(page);
        TakeBumpKeeps(l, page);
        FreshPage(l, page);
        HeadersStay(l, TakeBump(l, page), mem);
        led := TakeBump(l, page);
        cur, end := page, page + PAGE;
      }
      AddSmallKeeps(led, cur, end, size);
      SmallsDoNotMatter(led, AlignUp16(cur), size, mem);
      p := AlignUp16(cur);
      led := AddSmall(led, p, size);
      cur := p + size;
    }

    static lemma PageIsAligned16(p: nat)
      ensures p % PAGE == 0 ==> AlignUp16(p) == p
    {
    }

    static lemma SmallsDoNotMatter(l: Ledger, a: nat, size: nat, mem: map<nat, nat>)
      requires Partitioned(l) && Headers(l, mem)
      ensures Partitioned(AddSmall(l, a, size)) && Idle(AddSmall(l, a, size)) == Idle(l)
      ensures Headers(AddSmall(l, a, size), mem)
    {
      hide RunOf, BigFits, InBig;
      var t := AddSmall(l, a, size);
      BigsMiss(l, t);
      forall p { SameBigs(l, t, p); }
    }

    /** `kmalloc_big`: a run of pages of its own, behind a 32-byte header. */
    method KmallocBig(size: nat) returns (p: nat)
      requires Valid() && size < U64
      modifies this`mem, this`led, pmm`top, pmm.slots
      ensures Valid()
      ensures p == 0 <==> BigPages(size) == 0 || !HasRun(Idle(old(led)), BigPages(size))
      ensures p == 0 ==> led == old(led) && mem == old(mem)
      ensures p != 0 ==>
        p > HDR && RunOf(p - HDR, BigPages(size)) <= Idle(old(led)) && (p - HDR) % PAGE == 0
        && p - HDR !in old(led).bigs && led == TakeBig(old(led), p - HDR, BigPages(size))
      ensures OnlyHeaders(old(led), old(mem), mem)
    {
      hide RunOf, InBig, BigFits, BigPages, WithHeader, SmallsApart, OnlyHeaders;
      ghost var l, s := led, pmm.Free();
      var pages := BigPages(size);
      SameWords(l, mem);
      if pages == 0 {
        return 0;
      }
      RunsOfList(s, pages);
      var base := pmm.AllocContig(pages);
      if base == 0 {
        return 0;
      }
      FirstOfRun(base, pages);
      BigCount(l, base, pages);
      TakeBigKeeps(l, base, pages);
      TakeBigHeaders(l, mem, base, pages);
      HeaderWords(l, mem, base, pages);
      SmallsStay(l, TakeBig(l, base, pages), cur, end);
      mem := WithHeader(mem, base, pages);
      led := TakeBig(l, base, pages);
      return base + HDR;
    }

    static lemma SmallsStay(l: Ledger, t: Ledger, cur: nat, end: nat)
      requires t.smalls == l.smalls && t.bump == l.bump
      ensures SmallsApart(l) ==> SmallsApart(t)
      ensures BumpOk(l, cur, end) ==> BumpOk(t, cur, end)
    {
      if SmallsApart(l) {
        forall a | a in t.smalls
          ensures SmallFits(t, a)
        {
          assert SmallFits(l, a);
        }
      }
    }

    static lemma HeadersStay(l: Ledger, t: Ledger, mem: map<nat, nat>)
      requires forall b :: b in t.bigs ==> b in l.bigs && t.bigs[b] == l.bigs[b]
      ensures Headers(l, mem) ==> Headers(t, mem)
    {
    }

    static lemma RunsOfList(s: seq<nat>, n: nat)
      requires FreeList(s) && n > 0
      ensures HasRun(Pages(s), n) <==> exists b :: b in s && RunOf(b, n) <= Pages(s)
      ensures n == 1 ==> (HasRun(Pages(s), n) <==> s != [])
    {
      if n == 1 && s != [] {
        LastRun(s);
        assert s[|s| - 1] in Pages(s);
      }
    }

    /** `kmalloc`. */
    method Kmalloc(size: nat) returns (p: nat)
      requires Valid() && size < U64
      modifies this`cur, this`end, this`mem, this`led, pmm`top, pmm.slots
      ensures Valid()
      ensures size == 0 ==> p == 0
      ensures p == 0 ==> led == old(led) && mem == old(mem)
      ensures 0 < size <= SMALL_MAX ==>
        (p == 0 <==> !Room(old(cur), old(end), size) && Idle(old(led)) == {}) && mem == old(mem)
      ensures p != 0 && size <= SMALL_MAX ==>
        p !in old(led).smalls
        && led == AddSmall(if Room(old(cur), old(end), size) then old(led)
                           else TakeBump(old(led), AlignDown(p)), p, size)
      ensures size > SMALL_MAX ==> (p == 0 <==> BigPages(size) == 0 || !HasRun(Idle(old(led)), BigPages(size)))
      ensures p != 0 && size > SMALL_MAX ==>
        p > HDR && RunOf(p - HDR, BigPages(size)) <= Idle(old(led)) && (p - HDR) % PAGE == 0
        && p - HDR !in old(led).bigs && led == TakeBig(old(led), p - HDR, BigPages(size))
      ensures p != 0 && size <= SMALL_MAX ==>
        SmallAt(p, old(cur), old(end), size, Idle(old(led))) && cur == p + size
        && (!Room(old(cur), old(end), size) ==> AlignDown(p) in Idle(old(led)))
        && end == if Room(old(cur), old(end), size) then old(end) else p + PAGE
      ensures p == 0 || size > SMALL_MAX ==> cur == old(cur) && end == old(end)
      ensures OnlyHeaders(old(led), old(mem), mem)
    {
      hide OnlyHeaders, SmallAt;
      SameWords(led, mem);
      hide RunOf, BigPages, InBig, SmallsApart, Partitioned, BumpOk, Headers, FreeList, Room, HasRun, Idle;
      if size == 0 {
        return 0;
      }
      if size > SMALL_MAX {
        p := KmallocBig(size);
      } else {
        p := Bump(size);
      }
    }

    /**
     `kfree`, which tells the two kinds of block apart by the word 32 bytes before. A page-backed
     block gives its pages back, all of them and each once; a small block stays if that word is
     not the magic number. If it is, whatever run the next words name goes into the free list,
     and the heap stays sound exactly when that adds no page: the run is not one of pages, all of
     it is free already, or the list is full.
     */
    method Kfree(p: nat)
      requires Valid() && (p == 0 || p >= HDR)
      modifies this`led, pmm`top, pmm.slots
      ensures Tells(old(led), mem, p) ==> Valid()
      ensures Tells(old(led), mem, p) && (p == 0 || p - HDR !in old(led).bigs) ==>
        led == old(led) && pmm.Free() == old(pmm.Free())
      ensures p != 0 && p - HDR in old(led).bigs ==>
        led == GiveBig(old(led), p - HDR) && pmm.top == old(pmm.top) + old(led).bigs[p - HDR]
      ensures !Tells(old(led), mem, p) ==>
        var base, n := Word(mem, p - HDR + 16), Word(mem, p - HDR + 8) % U32;
        led == old(led) && pmm.Valid() && Freed(led, Pages(pmm.Free()), base, n)
        && (Valid() <==> AddsNone(old(led), base, n))
    {
      hide RunOf, InBig, SmallsApart, Partitioned, Headers, Idle, Freed, AddsNone, FreeList, BumpOk;
      if p == 0 {
        return;
      }
      var h := p - HDR;
      BigHeader(led, mem, h);
      if Word(mem, h) != BIG_MAGIC {
        return;
      }
      var pages := Word(mem, h + 8) % U32;
      if pages == 0 {
        NothingFreed(led, Word(mem, h + 16), pages);
        return;
      }
      var base := Word(mem, h + 16);
      if base == 0 {
        NothingFreed(led, base, pages);
        return;
      }
      GiveRun(base, pages, h in led.bigs);
    }

    // What `kfree` does once the header has been read, right or wrong.
    method GiveRun(base: nat, pages: nat, ghost own: bool)
      requires Valid() && (own ==> base in led.bigs && led.bigs[base] == pages)
      modifies this`led, pmm`top, pmm.slots
      ensures own ==>
        Valid() && led == GiveBig(old(led), base) && pmm.top == old(pmm.top) + pages
      ensures !own ==>
        led == old(led) && pmm.Valid() && Freed(led, Pages(pmm.Free()), base, pages)
        && (Valid() <==> AddsNone(old(led), base, pages))
    {
      hide RunOf, Idle, SmallsApart, BumpOk, Headers, FreeList;
      ghost var l, s := led, pmm.Free();
      PagesCount(s);
      if own {
        assert BigFits(l, base);
        GiveBigKeeps(l, base);
        Headroom(l, s, RunOfBig(l, base));
        RunSize(base, pages);
        SmallsStay(l, GiveBig(l, base), cur, end);
        HeadersStay(l, GiveBig(l, base), mem);
        led := GiveBig(l, base);
      }
      pmm.FreeContig(base, pages);
      if own {
        AllNew(s, pmm.Free(), RunOf(base, pages));
      }
    }

    static lemma AllNew(s: seq<nat>, t: seq<nat>, r: set<nat>)
      requires FreeList(s) && FreeList(t) && Pages(t) == Pages(s) + r && Pages(s) !! r
      ensures |t| == |s| + |r|
    {
      PagesCount(s);
      PagesCount(t);
    }

    /** Bytes written to a live block, or to a part of one, leave every header and every other place as it was. */
    method StoreBytes(a: nat, bytes: seq<byte>, ghost k: Block)
      requires Valid() && Live(led, k) && k.start <= a && a + |bytes| <= k.start + k.size && a % 8 == 0
      modifies this`mem
      ensures Valid() && OnlyIn(old(mem), mem, a, a + |bytes|)
      ensures HoldsBytes(old(mem), mem, a, bytes) && InMemory(mem, a, bytes)
    {
      hide Partitioned, SmallsApart, BumpOk, Headers, FreeList, Merged, Idle;
      ghost var was := mem;
      var j := 0;
      while 8 * j < |bytes|
        invariant Valid() && OnlyIn(was, mem, a, a + 8 * j) && (j > 0 ==> 8 * (j - 1) < |bytes|)
        invariant OnlyIn(was, mem, a, a + |bytes|)
        invariant forall i: nat :: i < j ==> Word(mem, a + 8 * i) == Merged(Word(was, a + 8 * i), bytes[8 * i..])
        decreases |bytes| - 8 * j
      {
        assert Begins(led, a + 8 * j);
        WriteKeepsHeaders(led, mem, a + 8 * j, Merged(Word(mem, a + 8 * j), bytes[8 * j..]));
        mem := mem[a + 8 * j := Merged(Word(mem, a + 8 * j), bytes[8 * j..])];
        j := j + 1;
      }
      WholeWords(was, mem, a, bytes);
    }

    /** A write by the owner of the place leaves every header and every block as it was. */
    method Store(a: nat, w: nat)
      requires Valid() && Writable(led, a) && w < U64
      modifies this`mem
      ensures Valid() && mem == old(mem)[a := w]
    {
      assert Begins(led, a);
      WriteKeepsHeaders(led, mem, a, w);
      mem := mem[a := w];
    }
  }

  // ----- a small block that is taken for a page-backed one -----

  lemma TwoPages(l: Ledger, p: nat)
    requires p > 0 && p % PAGE == 0 && l == Ledger({p, p + PAGE}, {}, {}, map[], map[])
    ensures Idle(l) == {p, p + PAGE} && RunOf(p, 2) == {p, p + PAGE} && HasRun(Idle(l), 2)
    ensures forall b: nat :: b % PAGE == 0 && RunOf(b, 2) <= Idle(l) ==> b == p
  {
    assert Idle(l) == l.all;
    forall x: nat
      ensures x in RunOf(p, 2) <==> x in {p, p + PAGE}
    {
      assert x == p ==> x == p + 0 * PAGE;
      assert x == p + PAGE ==> x == p + 1 * PAGE;
    }
    assert RunOf(p, 2) == {p, p + PAGE};
    assert p in Idle(l) && RunOf(p, 2) <= Idle(l);
    forall b: nat | b % PAGE == 0 && RunOf(b, 2) <= Idle(l)
      ensures b == p
    {
      assert b == b + 0 * PAGE && b in RunOf(b, 2);
      assert b + PAGE == b + 1 * PAGE && b + PAGE in RunOf(b, 2);
    }
  }

  // A page-backed block comes and goes; its header stays behind.
  method BigAndBack(heap: Heap, page: nat)
    requires heap.Valid() && page > 0 && page % PAGE == 0
    requires heap.led == Ledger({page, page + PAGE}, {}, {}, map[], map[])
    modifies heap`cur, heap`end, heap`mem, heap`led, heap.pmm`top, heap.pmm.slots
    ensures heap.Valid() && heap.led == old(heap.led) && heap.cur == old(heap.cur) && HeaderAt(heap.mem, page, 2)
  {
    hide Partitioned, SmallsApart, BumpOk, Headers, FreeList, RunOf, Idle, HasRun, OnlyHeaders, HeaderAt;
    ghost var l := heap.led;
    TwoPages(l, page);
    var b := heap.Kmalloc(PAGE);
    BigHeader(heap.led, heap.mem, page);
    TakenBack(l, page, 2);
    heap.Kfree(b);
  }

  // A block that fills one page, and one that ends it.
  method FillPage(heap: Heap, page: nat) returns (a: nat)
    requires heap.Valid() && heap.cur == 0 && page > 0 && page % PAGE == 0
    requires heap.led == Ledger({page, page + PAGE}, {}, {}, map[], map[])
    modifies heap`cur, heap`end, heap`mem, heap`led, heap.pmm`top, heap.pmm.slots
    ensures heap.Valid() && heap.mem == old(heap.mem) && a in heap.led.smalls
    ensures heap.led.all == {page, page + PAGE} && heap.led.bump == {page + PAGE}
    ensures heap.led.direct == {} && heap.led.bigs == map[] && heap.cur == heap.end == page + 2 * PAGE
  {
    hide Partitioned, SmallsApart, BumpOk, Headers, FreeList, RunOf, Idle, HasRun, OnlyHeaders, AlignDown, AlignUp16;
    TwoPages(heap.led, page);
    Aligned(page);
    a := heap.Kmalloc(SMALL_MAX);
    OneLeft(heap.led, page);
    var e := heap.Kmalloc(HDR);
  }

  // ... and two at the start of the other page.
  method FourSmall(heap: Heap, page: nat) returns (a: nat, d: nat)
    requires heap.Valid() && heap.cur == 0 && page > 0 && page % PAGE == 0
    requires heap.led == Ledger({page, page + PAGE}, {}, {}, map[], map[])
    modifies heap`cur, heap`end, heap`mem, heap`led, heap.pmm`top, heap.pmm.slots
    ensures heap.Valid() && heap.mem == old(heap.mem) && d == page + HDR
    ensures a in heap.led.smalls && d in heap.led.smalls
    ensures heap.led.all == {page, page + PAGE} && heap.led.bump == {page, page + PAGE} && heap.led.bigs == map[]
  {
    hide Partitioned, SmallsApart, BumpOk, Headers, FreeList, RunOf, Idle, HasRun, OnlyHeaders, AlignDown, AlignUp16;
    Aligned(page);
    a := FillPage(heap, page);
    OneLeft(heap.led, page);
    var c := heap.Kmalloc(HDR);
    d := heap.Kmalloc(1);
  }

  lemma Aligned(page: nat)
    requires page % PAGE == 0
    ensures AlignDown(page) == page && AlignDown(page + PAGE) == page + PAGE
    ensures AlignUp16(page + PAGE + SMALL_MAX) == page + PAGE + SMALL_MAX
    ensures AlignUp16(page + 2 * PAGE) == page + 2 * PAGE && AlignUp16(page + HDR) == page + HDR
  {
  }

  /**
   What the word before a block really is depends on who used the page before. With two free
   pages: a page-backed block is freed, four small blocks follow, and the last of them, given
   back, puts both pages into the free list while they hold the other three.
   */
  method StaleHeader(heap: Heap, page: nat) returns (a: nat, d: nat)
    requires heap.Valid() && heap.cur == 0 && page > 0 && page % PAGE == 0
    requires heap.led == Ledger({page, page + PAGE}, {}, {}, map[], map[])
    modifies heap`cur, heap`end, heap`mem, heap`led, heap.pmm`top, heap.pmm.slots
    ensures a in heap.led.smalls && d in heap.led.smalls && heap.led.bump == {page, page + PAGE}
    ensures heap.pmm.Valid() && Pages(heap.pmm.Free()) == {page, page + PAGE} && !heap.Valid()
  {
    hide Partitioned, SmallsApart, BumpOk, Headers, FreeList, RunOf, Idle, HasRun, OnlyHeaders;
    TwoPages(heap.led, page);
    BigAndBack(heap, page);
    a, d := FourSmall(heap, page);
    NoneLeft(heap.led, page);
    heap.Kfree(d);
  }

  lemma OneLeft(l: Ledger, p: nat)
    requires l.all == {p, p + PAGE} && l.direct == {} && l.bump == {p + PAGE} && l.bigs == map[]
    ensures Idle(l) == {p}
  {
  }

  lemma NoneLeft(l: Ledger, p: nat)
    requires l.all == {p, p + PAGE} && l.bump == {p, p + PAGE}
    ensures Idle(l) == {}
  {
  }
}
