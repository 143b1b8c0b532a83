/** `fs_read_file`: a whole file in a heap block of its own. */
module FsFile {
  import opened Bytes
  import opened FatVolume
  import opened FatTree
  import opened FatMount
  import opened FatRead
  import opened Path83
  import opened FsLayer
  import PageList
  import K = Kmem
  import O = Ownership

  // A small file's block, which is never given back, will not be taken for a page-backed one.
  ghost predicate BlockTells(spot: Spot, heap: K.Heap)
    reads heap
  {
    spot.Found? && !HasDir(spot.e.attr) ==> K.Foretold(heap.led, heap.mem, heap.cur, heap.end, spot.e.size)
  }

  // The block of a file of that size, in a ledger that is `base` once its pages are given back.
  ghost predicate FileHeld(base: O.Ledger, now: O.Ledger, mem: map<nat, nat>, p: nat, size: nat) {
    if size == 0 then p == 0 && now == base
    else if size <= K.SMALL_MAX then
      p >= O.HDR && p in base.smalls && size <= base.smalls[p] && now == base && K.Word(mem, p - O.HDR) != K.BIG_MAGIC
    else
      && p > O.HDR && p - O.HDR !in base.bigs && O.IdleRun(base, p - O.HDR, K.BigPages(size))
      && now == O.TakeBig(base, p - O.HDR, K.BigPages(size))
  }

  /**
   On success the block holds the file's bytes, all of them; an empty file has no block. On
   every other way out the heap is as it was, but for the block of a small file.
   */
  method ReadWhole(fs: Fat16, heap: K.Heap, path: seq<byte>, ghost cat: Catalog)
    returns (rc: int, p: nat, buf: array<byte>, ghost spot: Spot, ghost base: O.Ledger)
    requires fs.Mounted() && WellFormedVolume(fs.View(), cat) && heap.Valid()
    requires BlockTells(Resolve(fs.View(), cat, Norm(path, PATH_CAP)), heap)
    modifies fs.disk`readFaults, heap`cur, heap`end, heap`mem, heap`led, heap.pmm`top, heap.pmm.slots
    ensures heap.Valid() && fresh(buf) && fs.disk.readFaults >= old(fs.disk.readFaults)
    ensures spot == Resolve(fs.View(), cat, Norm(path, PATH_CAP))
    ensures K.SmallMore(old(heap.led), base, if spot.Found? && !HasDir(spot.e.attr) then spot.e.size else 0)
    ensures FileHeld(base, heap.led, heap.mem, p, buf.Length) && O.Partitioned(base)
    ensures rc == 0 ==>
      spot.Found? && !HasDir(spot.e.attr) && buf[..] == FileBytes(fs.View(), cat, spot.e)
    ensures rc == 0 ==> K.InMemory(heap.mem, p, buf[..])
    ensures rc != 0 ==> buf.Length == 0
    ensures rc != 0 && fs.disk.readFaults == old(fs.disk.readFaults) ==>
      || spot == Fail(rc)
      || (rc == -2 && (spot.AtRoot? || (spot.Found? && HasDir(spot.e.attr))))
      || (rc == -3 && spot.Found? && !HasDir(spot.e.attr)
          && K.NoBlock(old(heap.cur), old(heap.end), O.Idle(old(heap.led)), spot.e.size))
  {
    hide WellFormedVolume, Resolve, Norm, ViewOf, Laid, Range, FileBytes, EntryOk, K.BigPages, K.HasRun, O.Idle,
         O.Partitioned, O.SmallsApart, K.BumpOk, K.Headers, PageList.FreeList, Canonical, K.OnlyHeaders, K.SmallAt,
         K.Room, K.SmallMore, K.NoBlock, K.Foretold, K.Tells, FileHeld, K.InMemory, K.Freed, K.AddsNone, K.Word,
         O.IdleRun, NoWild;
    ghost var v := fs.View();
    p, base := 0, heap.led;
    buf := new byte[0];
    NothingHeld(base, heap.mem);
    var item;
    rc, item, spot := Find(fs, path, cat);
    if rc != 0 {
      return;
    }
    if HasDir(item.attr) {
      rc := -2;
      return;
    }
    FoundOk(v, cat, Norm(path, PATH_CAP));
    if item.size == 0 {
      NoBytes(v, cat, spot.e);
      return;
    }
    p, base := BlockFor(heap, item.size);
    if p == 0 {
      NothingHeld(base, heap.mem);
      rc := -3;
      return;
    }
    FileRange(v, cat, spot.e, 0, item.size);
    ViewIsShaped(fs.geo, fs.disk.sectors);
    buf := new byte[item.size];
    rc := ReadFile(fs, item.clus, 0, item.size, buf);
    ToBlock(heap, p, buf[..], base);
    if rc != 0 {
      GivenBack(base, heap.led, heap.mem, p, item.size);
      heap.Kfree(p);
      p := 0;
      buf := new byte[0];
      NothingHeld(base, heap.mem);
    } else {
      assert buf[..] == buf[..item.size];
    }
  }

  lemma NothingHeld(l: O.Ledger, mem: map<nat, nat>)
    ensures FileHeld(l, l, mem, 0, 0) && K.InMemory(mem, 0, []) && forall n: nat :: K.SmallMore(l, l, n)
  {
  }

  // What was read, as memory has it.
  method ToBlock(heap: K.Heap, p: nat, bytes: seq<byte>, ghost base: O.Ledger)
    requires heap.Valid() && 0 < |bytes| < U32 && FileHeld(base, heap.led, heap.mem, p, |bytes|)
    modifies heap`mem
    ensures heap.Valid() && FileHeld(base, heap.led, heap.mem, p, |bytes|) && K.InMemory(heap.mem, p, bytes)
  {
    hide K.BigPages, O.Idle, O.Partitioned, O.SmallsApart, K.BumpOk, K.Headers, PageList.FreeList, FileHeld, O.Live,
         K.OnlyIn, K.InMemory, K.HoldsBytes;
    ghost var was := heap.mem;
    ghost var k := FileBlock(base, heap.led, heap.mem, p, |bytes|);
    heap.StoreBytes(p, bytes, k);
    StillHeld(base, heap.led, was, heap.mem, p, |bytes|);
  }

  lemma FileBlock(base: O.Ledger, now: O.Ledger, mem: map<nat, nat>, p: nat, size: nat) returns (k: O.Block)
    requires 0 < size < U32 && FileHeld(base, now, mem, p, size) && O.SmallsApart(now)
    ensures O.Live(now, k) && k.start == p && size <= k.size && p % 8 == 0
  {
    hide K.BigPages, O.Idle, O.RunOfBig, PageList.RunOf;
    WordAligned(p);
    if size <= K.SMALL_MAX {
      k := O.Block(p, base.smalls[p]);
      assert O.SmallFits(now, p);
    } else {
      K.BigPagesFit(size);
      k := O.Block(p, K.BigPages(size) * PageList.PAGE - O.HDR);
    }
  }

  lemma WordAligned(p: nat)
    ensures p % 16 == 0 ==> p % 8 == 0
    ensures p >= O.HDR && (p - O.HDR) % PageList.PAGE == 0 ==> p % 8 == 0
  {
    if p >= O.HDR && (p - O.HDR) % PageList.PAGE == 0 {
      var q := (p - O.HDR) / PageList.PAGE;
      assert p == 8 * (512 * q + 4);
    }
    if p % 16 == 0 {
      assert p == 8 * (2 * (p / 16));
    }
  }

  lemma StillHeld(base: O.Ledger, now: O.Ledger, was: map<nat, nat>, mem: map<nat, nat>, p: nat, size: nat)
    requires FileHeld(base, now, was, p, size) && K.OnlyIn(was, mem, p, p + size)
    ensures FileHeld(base, now, mem, p, size)
  {
  }

  // A block for a file that is not empty.
  method BlockFor(heap: K.Heap, size: nat) returns (p: nat, ghost base: O.Ledger)
    requires heap.Valid() && 0 < size < U32 && K.Foretold(heap.led, heap.mem, heap.cur, heap.end, size)
    modifies heap`cur, heap`end, heap`mem, heap`led, heap.pmm`top, heap.pmm.slots
    ensures heap.Valid() && K.SmallMore(old(heap.led), base, size) && O.Partitioned(base)
    ensures p == 0 <==> K.NoBlock(old(heap.cur), old(heap.end), O.Idle(old(heap.led)), size)
    ensures p == 0 ==> heap.led == base
    ensures p != 0 ==> FileHeld(base, heap.led, heap.mem, p, size)
  {
    hide K.BigPages, K.HasRun, O.Idle, O.Partitioned, O.SmallsApart, K.BumpOk, K.Headers, PageList.FreeList,
         K.OnlyHeaders, K.Room, PageList.AlignDown;
    ghost var l, cur, end := heap.led, heap.cur, heap.end;
    K.BigPagesFit(size);
    p := heap.Kmalloc(size);
    base := if size <= K.SMALL_MAX then heap.led else l;
    if p != 0 && size <= K.SMALL_MAX {
      K.SmallIsHigh(l, cur, end, size, p);
      assert K.SmallMore(l, base, size);
    }
  }

  // What is left once the block has been given back.
  lemma GivenBack(base: O.Ledger, now: O.Ledger, mem: map<nat, nat>, p: nat, size: nat)
    requires FileHeld(base, now, mem, p, size) && 0 < size && O.Partitioned(now) && O.SmallsApart(now)
    ensures p >= O.HDR && K.Tells(now, mem, p)
    ensures if size > K.SMALL_MAX then p - O.HDR in now.bigs && O.GiveBig(now, p - O.HDR) == base
            else p - O.HDR !in now.bigs && now == base
  {
    if size > K.SMALL_MAX {
      O.TakenBack(base, p - O.HDR, K.BigPages(size));
    } else {
      K.SmallIsNoBig(now, p);
    }
  }

  lemma NoBytes(v: Volume, cat: Catalog, e: Entry)
    requires e.size == 0
    ensures FileBytes(v, cat, e) == []
  {
  }
}
