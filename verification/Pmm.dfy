/** The physical page allocator: a sorted array of free pages. */
module Pmm {
  import opened Heapsort
  import opened PageList

  const MAX_PAGES := 131072
  const MIN_ALLOC := 0x100_0000
  const CONVENTIONAL := 7

  // ----- the memory map -----

  datatype Desc = Desc(kind: nat, start: nat, pages: nat)

  /** What the boot loader left: where the memory map is, and where this record says it is, and is. */
  datatype BootInfo = BootInfo(magic: nat, memmap: nat, mapSize: nat, descSize: nat, phys: nat, at: nat)

  const BOOTINFO_MAGIC := 0x4341524C4F53424F

  predicate HasMap(bi: BootInfo) {
    bi.magic == BOOTINFO_MAGIC && bi.memmap != 0 && bi.mapSize != 0 && bi.descSize != 0
  }

  // The descriptors of the map, of those that memory holds from its address on; none without a map.
  function MapOf(bi: BootInfo, ds: seq<Desc>): seq<Desc>
    requires HasMap(bi) ==> bi.mapSize / bi.descSize <= |ds|
  {
    if HasMap(bi) then ds[..bi.mapSize / bi.descSize] else []
  }

  // The pages of the kernel, of the map and of the record.
  function ReservedBy(bi: BootInfo, kernelStart: nat, kernelEnd: nat): Reserved {
    var info := AlignDown(if bi.phys != 0 then bi.phys else bi.at);
    Reserved(AlignDown(kernelStart), AlignUp(kernelEnd), AlignDown(bi.memmap), AlignUp(bi.memmap + bi.mapSize),
             info, info + PAGE)
  }

  /** Half-open ranges of pages that are never handed out. */
  datatype Reserved = Reserved(kernelLo: nat, kernelHi: nat, mapLo: nat, mapHi: nat, infoLo: nat, infoHi: nat)

  predicate InRange(x: nat, lo: nat, hi: nat) { lo <= x < hi }

  predicate IsReserved(r: Reserved, p: nat) {
    InRange(p, r.kernelLo, r.kernelHi) || InRange(p, r.mapLo, r.mapHi) || InRange(p, r.infoLo, r.infoHi)
  }

  predicate Usable(r: Reserved, p: nat) {
    p >= MIN_ALLOC && !IsReserved(r, p)
  }

  // Page p shares a byte with the bytes from lo up to hi.
  predicate PageMeets(p: nat, lo: nat, hi: nat) {
    p < hi && lo < p + 4096
  }

  /**
   What may be handed out, by bytes instead of rounded ranges: pages from 16 MiB on that meet
   neither kernel nor map and do not hold the record's address.
   */
  lemma UsableExactly(bi: BootInfo, kernelStart: nat, kernelEnd: nat, p: nat)
    requires p % 4096 == 0 && kernelStart < kernelEnd && HasMap(bi)
    ensures Usable(ReservedBy(bi, kernelStart, kernelEnd), p) <==>
      && p >= 16 * 1024 * 1024 && !PageMeets(p, kernelStart, kernelEnd)
      && !PageMeets(p, bi.memmap, bi.memmap + bi.mapSize)
      && !PageMeets(p, if bi.phys == 0 then bi.at else bi.phys, (if bi.phys == 0 then bi.at else bi.phys) + 1)
    ensures bi.magic == 0x4341524C4F53424F
  {
    MeetsRounded(p, kernelStart, kernelEnd);
    MeetsRounded(p, bi.memmap, bi.memmap + bi.mapSize);
    var info := if bi.phys == 0 then bi.at else bi.phys;
    MeetsRounded(p, info, info + 1);
  }

  lemma MeetsRounded(p: nat, lo: nat, hi: nat)
    requires p % 4096 == 0 && lo < hi
    ensures PageMeets(p, lo, hi) <==> InRange(p, AlignDown(lo), AlignUp(hi))
    ensures hi == lo + 1 ==> AlignUp(hi) == AlignDown(lo) + PAGE
  {
  }

  // The usable pages among the first n of a descriptor, in order.
  function DescPages(r: Reserved, d: Desc, n: nat): seq<nat> {
    if n == 0 then []
    else
      var p := AlignDown(d.start + (n - 1) * PAGE);
      DescPages(r, d, n - 1) + if Usable(r, p) then [p] else []
  }

  // The usable pages of the first n descriptors, in map order.
  function MapPages(r: Reserved, ds: seq<Desc>, n: nat): seq<nat>
    requires n <= |ds|
  {
    if n == 0 then []
    else
      MapPages(r, ds, n - 1) + if ds[n - 1].kind == CONVENTIONAL then DescPages(r, ds[n - 1], ds[n - 1].pages) else []
  }

  function FirstMax(s: seq<nat>): (r: seq<nat>)
    ensures r <= s && |r| <= 131072 && (r == s || |r| == 131072)
  {
    if |s| <= MAX_PAGES then s else s[..MAX_PAGES]
  }

  // Aligned descriptors that do not overlap.
  ghost predicate Apart(a: Desc, b: Desc) {
    a.start + a.pages * PAGE <= b.start || b.start + b.pages * PAGE <= a.start
  }

  ghost predicate GoodMap(ds: seq<Desc>) {
    && (forall i :: 0 <= i < |ds| ==> ds[i].start % PAGE == 0)
    && (forall i, j :: 0 <= i < j < |ds| ==> Apart(ds[i], ds[j]))
  }

  ghost predicate NoRepeats(s: seq<nat>) {
    forall i, j :: 0 <= i < j < |s| ==> s[i] != s[j]
  }

  ghost predicate Covers(d: Desc, p: nat) {
    d.kind == CONVENTIONAL && p in RunOf(d.start, d.pages)
  }

  // Page p is conventional memory of the first n descriptors and may be handed out.
  ghost predicate IsFree(r: Reserved, ds: seq<Desc>, n: nat, p: nat)
    requires n <= |ds|
  {
    Usable(r, p) && exists i :: 0 <= i < n && Covers(ds[i], p)
  }

  // s lists exactly those pages, each once.
  ghost predicate ListsFree(s: seq<nat>, r: Reserved, ds: seq<Desc>, n: nat)
    requires n <= |ds|
  {
    NoRepeats(s) && forall p :: p in s <==> IsFree(r, ds, n, p)
  }

  lemma {:induction false} DescPagesAre(r: Reserved, d: Desc, n: nat)
    requires d.start % PAGE == 0
    ensures forall p :: p in DescPages(r, d, n) <==> Usable(r, p) && p in RunOf(d.start, n)
    ensures forall i, j :: 0 <= i < j < |DescPages(r, d, n)| ==> DescPages(r, d, n)[i] < DescPages(r, d, n)[j]
  {
    if n > 0 {
      DescPagesAre(r, d, n - 1);
      var last := d.start + (n - 1) * PAGE;
      assert AlignDown(last) == last;
      forall p: nat
        ensures p in RunOf(d.start, n) <==> p in RunOf(d.start, n - 1) || p == last
      {
        RunStep(d.start, n, p);
      }
      var before := DescPages(r, d, n - 1);
      assert forall i :: 0 <= i < |before| ==> before[i] in before;
    }
  }

  lemma IsFreeStep(r: Reserved, ds: seq<Desc>, n: nat, p: nat)
    requires 0 < n <= |ds|
    ensures IsFree(r, ds, n, p) <==> IsFree(r, ds, n - 1, p) || (Usable(r, p) && Covers(ds[n - 1], p))
  {
    hide Usable, Covers;
    if IsFree(r, ds, n, p) {
      var i :| 0 <= i < n && Covers(ds[i], p);
    }
  }

  // Earlier descriptors cover no page of a later one.
  lemma EarlierMisses(r: Reserved, ds: seq<Desc>, n: nat, p: nat)
    requires GoodMap(ds) && 0 < n <= |ds| && IsFree(r, ds, n - 1, p)
    ensures !Covers(ds[n - 1], p)
  {
    hide Usable;
    var i :| 0 <= i < n - 1 && Covers(ds[i], p);
    assert Apart(ds[i], ds[n - 1]);
  }

  /** The collected pages are exactly the conventional, usable ones, each once. */
  lemma {:induction false} MapPagesAre(r: Reserved, ds: seq<Desc>, n: nat)
    requires GoodMap(ds) && n <= |ds|
    ensures ListsFree(MapPages(r, ds, n), r, ds, n)
  {
    if n > 0 {
      MapPagesAre(r, ds, n - 1);
      ListsMore(MapPages(r, ds, n - 1), r, ds, n);
    }
  }

  lemma ListsMore(a: seq<nat>, r: Reserved, ds: seq<Desc>, n: nat)
    requires GoodMap(ds) && 0 < n <= |ds| && ListsFree(a, r, ds, n - 1)
    ensures var d := ds[n - 1];
      ListsFree(a + if d.kind == CONVENTIONAL then DescPages(r, d, d.pages) else [], r, ds, n)
  {
    hide Usable, DescPages, IsFree;
    var d := ds[n - 1];
    DescPagesAre(r, d, d.pages);
    var b := if d.kind == CONVENTIONAL then DescPages(r, d, d.pages) else [];
    forall p: nat
      ensures p in a ==> p !in b
      ensures p in a + b <==> IsFree(r, ds, n, p)
    {
      IsFreeStep(r, ds, n, p);
      if p in a {
        EarlierMisses(r, ds, n, p);
      }
    }
    NoRepeatsConcat(a, b);
  }

  lemma NoRepeatsConcat(a: seq<nat>, b: seq<nat>)
    requires NoRepeats(a) && (forall i, j :: 0 <= i < j < |b| ==> b[i] < b[j]) && forall p | p in a :: p !in b
    ensures NoRepeats(a + b)
  {
    assert forall i :: 0 <= i < |a| ==> a[i] in a;
    assert forall i :: 0 <= i < |b| ==> b[i] in b;
  }

  // ----- sorting what was collected -----

  lemma {:induction false} SortedIsStrict(s: seq<nat>, t: seq<nat>)
    requires Ascending(s) && multiset(s) == multiset(t) && NoRepeats(t)
    ensures forall i, j :: 0 <= i < j < |s| ==> s[i] < s[j]
    ensures Pages(s) == Pages(t)
  {
    forall p
      ensures p in s <==> p in t
    {
      assert p in multiset(s) <==> p in s;
      assert p in multiset(t) <==> p in t;
    }
    forall i, j | 0 <= i < j < |s|
      ensures s[i] < s[j]
    {
      if s[i] == s[j] {
        CountTwice(s, i, j);
        CountOnce(t, s[i]);
      }
    }
  }

  lemma CountTwice(s: seq<nat>, i: nat, j: nat)
    requires i < j < |s| && s[i] == s[j]
    ensures multiset(s)[s[i]] >= 2
  {
    assert s == s[..j] + [s[j]] + s[j + 1..];
    assert s[..j] == s[..i] + [s[i]] + s[i + 1..j];
  }

  lemma {:induction false} CountOnce(s: seq<nat>, p: nat)
    requires NoRepeats(s)
    ensures multiset(s)[p] <= 1
  {
    if s != [] {
      var n := |s| - 1;
      assert s == s[..n] + [s[n]];
      CountOnce(s[..n], p);
      if s[n] == p {
        assert p !in s[..n];
      }
    }
  }

  // ----- the allocator -----

  class Pmm {
    const slots: array<nat>
    var top: nat

    constructor ()
      ensures fresh(slots) && Valid() && Free() == []
    {
      slots := new nat[MAX_PAGES];
      top := 0;
    }

    ghost predicate Valid()
      reads this, slots
    {
      slots.Length == MAX_PAGES && top <= MAX_PAGES && FreeList(slots[..top])
    }

    ghost function Free(): seq<nat>
      requires top <= slots.Length
      reads this, slots
    {
      slots[..top]
    }

    /** `pmm_init`: nothing without a valid record and a map; else collect, then sort. */
    method Init(bi: BootInfo, kernelStart: nat, kernelEnd: nat, ds: seq<Desc>)
      requires slots.Length == MAX_PAGES && (HasMap(bi) ==> bi.mapSize / bi.descSize <= |ds|)
      modifies this, slots
      ensures top <= MAX_PAGES && slots.Length == MAX_PAGES
      ensures !HasMap(bi) ==> Valid() && Free() == []
      ensures var r, ms := ReservedBy(bi, kernelStart, kernelEnd), MapOf(bi, ds);
        && Ascending(Free()) && multiset(Free()) == multiset(FirstMax(MapPages(r, ms, |ms|)))
        && (GoodMap(ms) ==> Valid() && Pages(Free()) == Pages(FirstMax(MapPages(r, ms, |ms|))))
    {
      hide MapPages, FirstMax;
      top := 0;
      if bi.magic != BOOTINFO_MAGIC || bi.memmap == 0 || bi.mapSize == 0 || bi.descSize == 0 {
        NoPages(ReservedBy(bi, kernelStart, kernelEnd));
        return;
      }
      var count, r := bi.mapSize / bi.descSize, ReservedBy(bi, kernelStart, kernelEnd);
      CollectAll(r, ds[..count]);
      SortFree();
      if GoodMap(ds[..count]) {
        InitIsFreeList(r, ds[..count], Free());
      }
    }

    static lemma NoPages(r: Reserved)
      ensures FirstMax(MapPages(r, [], 0)) == []
    {
    }

    method SortFree()
      requires top <= slots.Length
      modifies slots
      ensures Ascending(Free()) && multiset(Free()) == old(multiset(Free()))
    {
      ghost var was := slots[..];
      HeapSort(slots, top);
      PrefixMultiset(slots[..], was, top);
      assert slots[..][..top] == slots[..top] && was[..top] == old(slots[..top]);
    }

    method CollectAll(r: Reserved, ds: seq<Desc>)
      requires slots.Length == MAX_PAGES
      modifies this, slots
      ensures top <= MAX_PAGES && slots.Length == MAX_PAGES && Free() == FirstMax(MapPages(r, ds, |ds|))
    {
      top := 0;
      var i := 0;
      while i < |ds|
        invariant i <= |ds| && top <= MAX_PAGES && Free() == FirstMax(MapPages(r, ds, i))
      {
        if ds[i].kind == CONVENTIONAL {
          Collect(r, ds, i);
        } else {
          MapPagesSkip(r, ds, i);
        }
        i := i + 1;
      }
    }

    lemma MapPagesSkip(r: Reserved, ds: seq<Desc>, i: nat)
      requires i < |ds| && ds[i].kind != CONVENTIONAL
      ensures MapPages(r, ds, i + 1) == MapPages(r, ds, i)
    {
    }

    // The inner loop, over the pages of descriptor i.
    method Collect(r: Reserved, ds: seq<Desc>, i: nat)
      requires slots.Length == MAX_PAGES && i < |ds| && ds[i].kind == CONVENTIONAL
      requires top <= MAX_PAGES && Free() == FirstMax(MapPages(r, ds, i))
      modifies this`top, slots
      ensures top <= MAX_PAGES && Free() == FirstMax(MapPages(r, ds, i + 1))
    {
      hide MapPages, Usable, FirstMax, DescPages;
      ghost var before := MapPages(r, ds, i);
      CollectStart(before, r, ds[i]);
      var pg := 0;
      while pg < ds[i].pages
        invariant pg <= ds[i].pages && top <= MAX_PAGES
        invariant Free() == FirstMax(before + DescPages(r, ds[i], pg))
      {
        var p := AlignDown(ds[i].start + pg * PAGE);
        ghost var sofar := Free();
        CollectStep(before, r, ds[i], pg);
        if Usable(r, p) {
          if top < MAX_PAGES {
            slots[top] := p;
            top := top + 1;
            assert Free() == sofar + [p];
          }
        }
        pg := pg + 1;
      }
      MapPagesStep(r, ds, i);
    }

    lemma CollectStart(before: seq<nat>, r: Reserved, d: Desc)
      ensures before + DescPages(r, d, 0) == before
    {
    }

    lemma CollectStep(before: seq<nat>, r: Reserved, d: Desc, pg: nat)
      ensures var p := AlignDown(d.start + pg * PAGE);
        var sofar := FirstMax(before + DescPages(r, d, pg));
        FirstMax(before + DescPages(r, d, pg + 1))
          == if Usable(r, p) && |sofar| < MAX_PAGES then sofar + [p] else sofar
    {
      hide Usable;
      var p := AlignDown(d.start + pg * PAGE);
      var all := before + DescPages(r, d, pg);
      assert before + DescPages(r, d, pg + 1) == all + if Usable(r, p) then [p] else [];
    }

    lemma MapPagesStep(r: Reserved, ds: seq<Desc>, i: nat)
      requires i < |ds| && ds[i].kind == CONVENTIONAL
      ensures MapPages(r, ds, i + 1) == MapPages(r, ds, i) + DescPages(r, ds[i], ds[i].pages)
    {
    }

    /** `pmm_alloc_page_phys`: the highest free page, or 0. */
    method AllocPage() returns (p: nat)
      requires Valid()
      modifies this`top
      ensures Valid()
      ensures old(Free()) == [] ==> p == 0 && Free() == []
      ensures old(Free()) != [] ==> p != 0 && old(Free()) == Free() + [p]
    {
      if top == 0 {
        return 0;
      }
      top := top - 1;
      p := slots[top];
    }

    // Room is made at `pos` and p put there.
    method PutAt(pos: nat, p: nat)
      requires slots.Length == MAX_PAGES && pos <= top < MAX_PAGES
      modifies this`top, slots
      ensures top == old(top) + 1 && Free() == old(Free())[..pos] + [p] + old(Free())[pos..]
    {
      var i := top;
      while i > pos
        invariant top == old(top) && pos <= i <= top < slots.Length
        invariant forall k :: 0 <= k < i ==> slots[k] == old(slots[k])
        invariant forall k :: i < k <= top ==> slots[k] == old(slots[k - 1])
      {
        slots[i] := slots[i - 1];
        i := i - 1;
      }
      slots[pos] := p;
      top := top + 1;
      PutIs(old(slots[..]), slots[..], old(top), pos, p);
      assert slots[..][..top] == slots[..top] && old(slots[..])[..old(top)] == old(slots[..top]);
    }

    static lemma PutIs(s: seq<nat>, t: seq<nat>, n: nat, pos: nat, p: nat)
      requires pos <= n < |s| == |t| && t[pos] == p
      requires forall k :: 0 <= k < pos ==> t[k] == s[k]
      requires forall k :: pos < k <= n ==> t[k] == s[k - 1]
      ensures t[..n + 1] == s[..n][..pos] + [p] + s[..n][pos..]
    {
    }

    /** `insert_sorted`: binary search for the place, then insertion. */
    method InsertSorted(p: nat)
      requires Valid()
      modifies this`top, slots
      ensures slots.Length == MAX_PAGES && top <= MAX_PAGES
      ensures old(top) >= MAX_PAGES ==> Free() == old(Free())
      ensures old(top) < MAX_PAGES ==> Free() == Insert(old(Free()), p)
    {
      if top >= MAX_PAGES {
        return;
      }
      ghost var s := Free();
      var lo, hi := 0, top;
      while lo < hi
        invariant lo <= hi <= top && Free() == s
        invariant forall k :: 0 <= k < lo ==> s[k] < p
        invariant forall k :: hi <= k < top ==> s[k] >= p
      {
        var mid := lo + (hi - lo) / 2;
        if slots[mid] < p {
          lo := mid + 1;
        } else {
          hi := mid;
        }
      }
      LowerBoundIs(s, p, lo);
      PutAt(lo, p);
    }

    /**
     `pmm_free_page_phys`: the page goes back. Freeing a page twice is not caught here: the list
     stays proper exactly if nothing is inserted, or a page that is not in it.
     */
    method FreePage(phys: nat)
      requires Valid()
      modifies this`top, slots
      ensures slots.Length == MAX_PAGES && top <= MAX_PAGES
      ensures var p := AlignDown(phys);
        && (phys == 0 || old(top) == MAX_PAGES ==> Free() == old(Free()) && Valid())
        && (phys != 0 && old(top) < MAX_PAGES ==> Free() == Insert(old(Free()), p))
        && (phys != 0 && old(top) < MAX_PAGES && p > 0 && p !in old(Free()) ==>
              Valid() && Pages(Free()) == Pages(old(Free())) + {p})
      ensures Valid() <==>
        phys == 0 || old(top) == MAX_PAGES || (AlignDown(phys) > 0 && AlignDown(phys) !in old(Free()))
    {
      hide FreeList, AlignDown, Insert;
      if phys == 0 {
        return;
      }
      var p := AlignDown(phys);
      ghost var s := Free();
      InsertSorted(p);
      if p > 0 && p !in s {
        InsertNew(s, p);
      } else {
        InsertSpoils(s, p);
      }
    }

    // Whether the n pages from place i on are neighbours.
    method RunHere(i: nat, n: nat) returns (ok: bool)
      requires Valid() && n > 0 && i + n <= top
      ensures ok <==> RunAt(Free(), i, n)
    {
      var base := slots[i];
      var j := 1;
      while j < n
        invariant 1 <= j <= n && forall k :: i <= k < i + j ==> Free()[k] == base + (k - i) * PAGE
      {
        if slots[i + j] != base + j * PAGE {
          assert Free()[i + j] == slots[i + j];
          return false;
        }
        j := j + 1;
      }
      return true;
    }

    /**
     `pmm_alloc_contig_pages_phys`: the lowest run of free pages of that length, taken out
     of the list; 0 exactly when there is none.
     */
    method AllocContig(n: nat) returns (base: nat)
      requires Valid()
      modifies this`top, slots
      ensures Valid()
      ensures n == 0 ==> base == 0
      ensures n == 1 ==> (base == 0 <==> old(Free()) == [])
      ensures n >= 2 ==>
        (base == 0 <==> forall b :: b in old(Free()) ==> !(RunOf(b, n) <= Pages(old(Free()))))
      ensures base == 0 ==> Free() == old(Free())
      ensures base != 0 ==>
        base % PAGE == 0 && RunOf(base, n) <= Pages(old(Free())) && Pages(Free()) == Pages(old(Free())) - RunOf(base, n)
      ensures base != 0 && n >= 2 ==>
        forall b :: b in old(Free()) && b < base ==> !(RunOf(b, n) <= Pages(old(Free())))
    {
      if n == 0 {
        return 0;
      }
      ghost var s := Free();
      if n == 1 {
        base := AllocPage();
        if base != 0 {
          LastRun(s);
        }
        return;
      }
      base := FirstRun(n);
    }

    // The search proper.
    method FirstRun(n: nat) returns (base: nat)
      requires Valid() && n >= 2
      modifies this`top, slots
      ensures Valid()
      ensures base == 0 <==> forall b :: b in old(Free()) ==> !(RunOf(b, n) <= Pages(old(Free())))
      ensures base == 0 ==> Free() == old(Free())
      ensures base != 0 ==>
        base % PAGE == 0 && RunOf(base, n) <= Pages(old(Free())) && Pages(Free()) == Pages(old(Free())) - RunOf(base, n)
      ensures base != 0 ==> forall b :: b in old(Free()) && b < base ==> !(RunOf(b, n) <= Pages(old(Free())))
    {
      hide RunOf, Cut;
      ghost var s := Free();
      if top < n {
        NoRunFrom(s, 0, n);
        return 0;
      }
      var i := 0;
      while i + n <= top
        invariant Valid() && i <= top && Free() == s
        invariant forall k :: 0 <= k < i ==> !RunAt(s, k, n)
      {
        var ok := RunHere(i, n);
        if ok {
          base := slots[i];
          assert base == s[i] > 0;
          LowestRun(s, i, n);
          CutRun(s, i, n);
          CloseGap(i, n);
          return;
        }
        i := i + 1;
      }
      NoRunFrom(s, i, n);
      return 0;
    }

    // The run at places i .. i + n leaves the list.
    method CloseGap(i: nat, n: nat)
      requires slots.Length == MAX_PAGES && top <= MAX_PAGES && i + n <= top
      modifies this`top, slots
      ensures top <= slots.Length && top == old(top) - n && Free() == Cut(old(Free()), i, n)
    {
      var k := i;
      while k + n < top
        invariant top == old(top) && i <= k <= top - n
        invariant forall m :: 0 <= m < i ==> slots[m] == old(slots[m])
        invariant forall m :: i <= m < k ==> slots[m] == old(slots[m + n])
        invariant forall m :: k <= m < top ==> slots[m] == old(slots[m])
      {
        slots[k] := slots[k + n];
        k := k + 1;
      }
      top := top - n;
      CutIs(old(slots[..]), slots[..], old(top), i, n);
      assert slots[..][..top] == slots[..top] && old(slots[..])[..old(top)] == old(slots[..top]);
    }

    static lemma CutIs(s: seq<nat>, t: seq<nat>, m: nat, i: nat, n: nat)
      requires i + n <= m <= |s| == |t|
      requires forall k :: 0 <= k < i ==> t[k] == s[k]
      requires forall k :: i <= k < m - n ==> t[k] == s[k + n]
      ensures t[..m - n] == Cut(s[..m], i, n)
    {
    }

    /**
     `pmm_free_contig_pages_phys`: every page of the run goes back; pages already free are
     skipped, and the list stays proper whatever is freed.
     */
    method FreeContig(base: nat, n: nat)
      requires Valid()
      modifies this`top, slots
      ensures Valid()
      ensures base == 0 || base % PAGE != 0 ==> Free() == old(Free())
      ensures Pages(old(Free())) <= Pages(Free()) <= Pages(old(Free())) + RunOf(base, n)
      ensures base != 0 && base % PAGE == 0 && old(top) + n <= MAX_PAGES ==>
        Pages(Free()) == Pages(old(Free())) + RunOf(base, n)
      ensures base != 0 && base % PAGE == 0 ==>
        (Pages(Free()) == Pages(old(Free())) <==> RunOf(base, n) <= Pages(old(Free())) || old(top) == MAX_PAGES)
    {
      hide RunOf, FreeList;
      if base == 0 || n == 0 {
        RunNone(base);
        return;
      }
      if base % PAGE != 0 {
        return;
      }
      ghost var s := Pages(Free());
      RunNone(base);
      for i := 0 to n
        invariant Valid() && s <= Pages(Free()) && top <= old(top) + i
        invariant Pages(Free()) == s + RunOf(base, i) && (old(top) == MAX_PAGES ==> Free() == old(Free()))
      {
        var ok := FreeOne(base + i * PAGE);
        RunMore(base, i, n);
        if !ok {
          FullStop(old(Free()), Free(), base, i, n);
          return;
        }
      }
    }

    // Stopped by a full list: pages were added, or it was full from the start.
    static lemma FullStop(s: seq<nat>, t: seq<nat>, base: nat, i: nat, n: nat)
      requires FreeList(s) && FreeList(t) && Pages(t) == Pages(s) + RunOf(base, i) && RunOf(base, i) <= RunOf(base, n)
      requires |t| == MAX_PAGES && (|s| == MAX_PAGES ==> t == s)
      ensures Pages(t) == Pages(s) <==> RunOf(base, n) <= Pages(s) || |s| == MAX_PAGES
    {
      hide RunOf, FreeList;
      PagesCount(s);
      PagesCount(t);
    }

    // One page of a run: false if the list is full.
    method FreeOne(p: nat) returns (ok: bool)
      requires Valid() && p > 0 && p % PAGE == 0
      modifies this`top, slots
      ensures Valid() && top <= old(top) + 1
      ensures ok ==> Pages(Free()) == Pages(old(Free())) + {p}
      ensures !ok ==> Free() == old(Free()) && old(top) == MAX_PAGES
      ensures old(top) == MAX_PAGES ==> Free() == old(Free())
    {
      ghost var s := Free();
      var pos := 0;
      while pos < top && slots[pos] < p
        invariant pos <= top && forall k :: 0 <= k < pos ==> s[k] < p
      {
        pos := pos + 1;
      }
      if pos < top && slots[pos] == p {
        assert s[pos] == p;
        return true;
      }
      if top >= MAX_PAGES {
        return false;
      }
      LowerBoundIs(s, p, pos);
      assert p !in s;
      InsertNew(s, p);
      PutAt(pos, p);
      return true;
    }
  }

  // A page 0, or a page twice, and the list is no longer proper.
  lemma InsertSpoils(s: seq<nat>, p: nat)
    requires FreeList(s) && (p == 0 || p in s)
    ensures !FreeList(Insert(s, p))
  {
    var k := LowerBound(s, p);
    assert Insert(s, p)[k] == p;
    if p in s {
      var i :| 0 <= i < |s| && s[i] == p;
      assert i >= k && s[k] == p;
      assert Insert(s, p)[k + 1] == s[k];
    }
  }

  lemma LowerBoundIs(s: seq<nat>, p: nat, r: nat)
    requires r <= |s| && (forall k :: 0 <= k < r ==> s[k] < p) && (r < |s| ==> s[r] >= p)
    ensures LowerBound(s, p) == r
  {
  }

  lemma LastRun(s: seq<nat>)
    requires FreeList(s) && s != []
    ensures var p := s[|s| - 1];
      RunOf(p, 1) <= Pages(s) && Pages(s[..|s| - 1]) == Pages(s) - RunOf(p, 1)
  {
    var p := s[|s| - 1];
    assert RunOf(p, 1) == {p} by {
      forall x: nat | x in RunOf(p, 1)
        ensures x == p
      {
        if x > p { AlignedStep(p, x); }
      }
    }
  }

  lemma LowestRun(s: seq<nat>, i: nat, n: nat)
    requires FreeList(s) && n > 0 && RunAt(s, i, n) && forall k :: 0 <= k < i ==> !RunAt(s, k, n)
    ensures i < |s| && RunOf(s[i], n) <= Pages(s)
    ensures forall b :: b in s && b < s[i] ==> !(RunOf(b, n) <= Pages(s))
  {
    hide RunOf;
    RunInList(s, i, n);
    forall b | b in s && b < s[i]
      ensures !(RunOf(b, n) <= Pages(s))
    {
      var k :| 0 <= k < |s| && s[k] == b;
      RunInList(s, k, n);
    }
  }

  // No run starts before place i, and from there on the list is too short.
  lemma NoRunFrom(s: seq<nat>, i: nat, n: nat)
    requires FreeList(s) && n > 0 && i + n > |s| && forall k :: 0 <= k < i ==> !RunAt(s, k, n)
    ensures forall b :: b in s ==> !(RunOf(b, n) <= Pages(s))
  {
    hide RunOf;
    forall b | b in s
      ensures !(RunOf(b, n) <= Pages(s))
    {
      var k :| 0 <= k < |s| && s[k] == b;
      RunInList(s, k, n);
    }
  }

  lemma RunNone(base: nat)
    ensures RunOf(base, 0) == {}
  {
  }

  lemma RunMore(base: nat, i: nat, n: nat)
    requires base % PAGE == 0 && i < n
    ensures RunOf(base, i + 1) == RunOf(base, i) + {base + i * PAGE} && RunOf(base, i) <= RunOf(base, n)
    ensures RunOf(base, i + 1) <= RunOf(base, n)
  {
    forall p: nat
      ensures p in RunOf(base, i + 1) <==> p in RunOf(base, i) || p == base + i * PAGE
    {
      RunStep(base, i + 1, p);
    }
  }

  /** On a good memory map the allocator starts with a proper free list. */
  lemma InitIsFreeList(r: Reserved, ds: seq<Desc>, s: seq<nat>)
    requires GoodMap(ds) && Ascending(s) && multiset(s) == multiset(FirstMax(MapPages(r, ds, |ds|)))
    ensures FreeList(s) && Pages(s) == Pages(FirstMax(MapPages(r, ds, |ds|)))
  {
    hide MapPages, Usable;
    MapPagesAre(r, ds, |ds|);
    var t := FirstMax(MapPages(r, ds, |ds|));
    SortedIsStrict(s, t);
    forall i | 0 <= i < |s|
      ensures s[i] > 0 && s[i] % PAGE == 0
    {
      assert s[i] in Pages(s) && s[i] in t;
      FreeIsAligned(r, ds, s[i]);
    }
  }

  lemma FreeIsAligned(r: Reserved, ds: seq<Desc>, p: nat)
    requires IsFree(r, ds, |ds|, p)
    ensures p > 0 && p % PAGE == 0
  {
  }

  /** With room for all of them, the free pages are exactly the usable conventional ones. */
  lemma InitExact(r: Reserved, ds: seq<Desc>, s: seq<nat>)
    requires GoodMap(ds) && |MapPages(r, ds, |ds|)| <= MAX_PAGES && Pages(s) == Pages(FirstMax(MapPages(r, ds, |ds|)))
    ensures forall p :: p in Pages(s) <==> IsFree(r, ds, |ds|, p)
  {
    hide MapPages, IsFree;
    MapPagesAre(r, ds, |ds|);
    forall p
      ensures p in Pages(s) <==> IsFree(r, ds, |ds|, p)
    {
      assert p in Pages(s) <==> p in MapPages(r, ds, |ds|);
    }
  }

  /** The same in bytes and numbers: pages of descriptors of type 7 that `UsableExactly` lets through. */
  lemma FreeExactly(bi: BootInfo, kernelStart: nat, kernelEnd: nat, ds: seq<Desc>, p: nat)
    requires p % 4096 == 0 && kernelStart < kernelEnd && HasMap(bi)
    ensures IsFree(ReservedBy(bi, kernelStart, kernelEnd), ds, |ds|, p) <==>
      && (exists i :: 0 <= i < |ds| && ds[i].kind == 7 && ds[i].start <= p < ds[i].start + ds[i].pages * 4096)
      && p >= 16 * 1024 * 1024 && !PageMeets(p, kernelStart, kernelEnd)
      && !PageMeets(p, bi.memmap, bi.memmap + bi.mapSize)
      && !PageMeets(p, if bi.phys == 0 then bi.at else bi.phys, (if bi.phys == 0 then bi.at else bi.phys) + 1)
  {
    hide Usable, ReservedBy, PageMeets;
    UsableExactly(bi, kernelStart, kernelEnd, p);
    assert forall i :: 0 <= i < |ds| ==>
      (Covers(ds[i], p) <==> ds[i].kind == 7 && ds[i].start <= p < ds[i].start + ds[i].pages * 4096);
  }
}
