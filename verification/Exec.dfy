/** Running a program: who holds which memory, from the file's block to the last free. */
module Exec {
  import opened Bytes
  import opened FatVolume
  import opened FatTree
  import opened FatMount
  import opened Path83
  import opened FsLayer
  import opened FsFile
  import opened Ownership
  import PageList
  import K = Kmem
  import Pmm
  import X = ExecElf

  const STACK := 0x1_0000

  // ----- the application, as far as memory is concerned -----

  /** What the kernel's interface lets a program do with pages: take one, give back one at any address. */
  datatype AppCall = Take | Give(addr: nat)

  ghost predicate Holds(was: Ledger, now: Ledger, held: seq<nat>) {
    && now == TakeDirect(was, PageList.Pages(held))
    && (forall p :: p in held ==> p !in was.direct)
    && (forall i, j :: 0 <= i < j < |held| ==> held[i] != held[j])
  }

  // The call gives back a page that is not among those held.
  predicate Stray(call: AppCall, held: seq<nat>) {
    call.Give? && call.addr != 0 && PageList.AlignDown(call.addr) !in held
  }

  method PlaceOf(held: seq<nat>, p: nat) returns (i: nat)
    ensures i <= |held| && (i < |held| ==> held[i] == p) && (i == |held| ==> p !in held)
  {
    i := 0;
    while i < |held| && held[i] != p
      invariant i <= |held| && p !in held[..i]
    {
      i := i + 1;
    }
    assert held[..|held|] == held;
  }

  /**
   A program's calls, one after the other; `held` are the pages it has not given back. A call
   that gives back a page it does not hold makes the heap unsound, unless the free list is full;
   the first of these ends the account, with `n` calls made before it.
   */
  method RunApp(heap: K.Heap, app: seq<AppCall>) returns (held: seq<nat>, n: nat)
    requires heap.Valid()
    modifies heap`led, heap.pmm`top, heap.pmm.slots
    ensures n <= |app| && Holds(old(heap.led), heap.led, held)
    ensures n == |app| ==> heap.Valid()
    ensures n < |app| ==> Stray(app[n], held) && !heap.Valid()
  {
    hide Idle, Partitioned, SmallsApart, K.BumpOk, K.Headers, PageList.FreeList, Holds, TakeDirect, GiveDirect;
    held, n := [], 0;
    ghost var l := heap.led;
    HoldsNone(l);
    while n < |app|
      invariant n <= |app| && heap.Valid() && Holds(l, heap.led, held)
      decreases |app| - n
    {
      ghost var now := heap.led;
      match app[n] {
        case Take =>
          var p := heap.TakePage();
          if p != 0 {
            NotDirect(now, p);
            HoldsMore(l, now, held, p);
            held := held + [p];
          }
        case Give(addr) =>
          var i := PlaceOf(held, PageList.AlignDown(addr));
          if addr != 0 && i < |held| {
            HoldsLess(l, now, held, i);
            heap.GivePage(held[i]);
            held := held[..i] + held[i + 1..];
          } else if addr != 0 {
            var full := heap.pmm.top == Pmm.MAX_PAGES;
            PageList.PagesCount(heap.pmm.Free());
            heap.FreeStray(addr);
            if !full {
              return;
            }
          }
      }
      n := n + 1;
    }
  }

  lemma HoldsNone(l: Ledger)
    ensures Holds(l, l, [])
  {
    assert l.direct + PageList.Pages([]) == l.direct;
  }

  lemma NotDirect(l: Ledger, p: nat)
    ensures p in Idle(l) ==> p !in l.direct
  {
  }

  lemma HoldsMore(was: Ledger, now: Ledger, held: seq<nat>, p: nat)
    requires Holds(was, now, held) && p !in now.direct
    ensures Holds(was, TakeDirect(now, {p}), held + [p])
  {
    var more := held + [p];
    assert PageList.Pages(more) == PageList.Pages(held) + {p};
    assert forall i :: 0 <= i < |held| ==> held[i] in PageList.Pages(held);
    assert TakeDirect(now, {p}).direct == was.direct + PageList.Pages(more);
  }

  lemma HoldsLess(was: Ledger, now: Ledger, held: seq<nat>, i: nat)
    requires Holds(was, now, held) && i < |held|
    ensures held[i] in now.direct
    ensures Holds(was, GiveDirect(now, {held[i]}), held[..i] + held[i + 1..])
  {
    var less, p := held[..i] + held[i + 1..], held[i];
    assert p in PageList.Pages(held);
    forall x
      ensures x in less <==> x in held && x != p
    {
      if x in held && x != p {
        var j :| 0 <= j < |held| && held[j] == x;
        assert less[if j < i then j else j - 1] == x;
      }
      if x in less {
        var j :| 0 <= j < |less| && less[j] == x;
        assert held[if j < i then j else j + 1] == x;
      }
    }
    assert GiveDirect(now, {p}).direct == was.direct + PageList.Pages(less);
    assert forall j :: 0 <= j < |less| ==> less[j] == held[if j < i then j else j + 1];
  }

  // ----- ledgers with several blocks -----

  lemma FirstBack(l: Ledger, f: nat, n: nat, i: nat, m: nat)
    requires f !in l.bigs && i !in TakeBig(l, f, n).bigs
    ensures GiveBig(TakeBig(TakeBig(l, f, n), i, m), f) == TakeBig(l, i, m)
  {
    assert l.bigs[f := n][i := m] - {f} == l.bigs[i := m];
  }

  // The stack and the image go back; what the program holds stays.
  lemma BothBack(l: Ledger, now: Ledger, i: nat, m: nat, s: nat, n: nat, held: seq<nat>)
    requires i !in l.bigs && s !in TakeBig(l, i, m).bigs && Holds(TakeBig(TakeBig(l, i, m), s, n), now, held)
    ensures s in now.bigs && i in GiveBig(now, s).bigs
    ensures Holds(l, GiveBig(GiveBig(now, s), i), held)
  {
    assert l.bigs[i := m][s := n] - {s} - {i} == l.bigs;
  }

  // ----- running a program -----

  // The file's bytes, if there is one, are a file the loader's sums do not wrap on.
  ghost predicate TameFile(v: Volume, cat: Catalog, spot: Spot) {
    spot.Found? && !HasDir(spot.e.attr) ==> X.Tame(FileBytes(v, cat, spot.e))
  }

  // The image a program is entered in: its file, loaded.
  ghost predicate Entered(file: seq<byte>, img: X.ExecImage, block: seq<byte>) {
    exists plain, lo: nat, hi: nat :: X.IsLoaded(img, block, file, plain, lo, hi)
  }

  // The size of the file at a place, 0 if there is none.
  function SizeAt(spot: Spot): nat {
    if spot.Found? && !HasDir(spot.e.attr) then spot.e.size else 0
  }

  // The loader refused the file, with the file's own block at `at` besides what the heap had, and
  // with a block for the image at `raw` if it came that far.
  ghost predicate LoaderSays(rc: int, file: seq<byte>, base: Ledger, at: nat, raw: nat) {
    exists during, mem, lo: nat, hi: nat ::
      && FileHeld(base, during, mem, at, |file|) && X.CodeMeans(rc, file, lo, hi, Idle(during), raw)
      && lo <= hi && (raw != 0 ==> X.ImagePlace(during, raw, hi - lo))
  }

  // With the image's own block besides what the heap had, no run of pages is left for the stack.
  ghost predicate NoStack(base: Ledger, img: X.ExecImage) {
    && img.raw > HDR && IdleRun(base, img.raw - HDR, K.BigPages(img.size + PageList.PAGE))
    && !K.HasRun(Idle(TakeBig(base, img.raw - HDR, K.BigPages(img.size + PageList.PAGE))), K.BigPages(64 * 1024))
  }

  // Why a program was not entered, once the file was there.
  ghost predicate WhyNot(rc: int, file: seq<byte>, base: Ledger, at: nat, raw: nat, img: X.ExecImage,
                         block: seq<byte>) {
    || (rc == -2 && file == [])
    || LoaderSays(rc, file, base, at, raw)
    || (rc == -4 && Entered(file, img, block) && NoStack(base, img))
  }

  // Why there was no file.
  ghost predicate NoFile(rc: int, spot: Spot, noBlock: bool) {
    || spot == Fail(rc)
    || (rc == -2 && (spot.AtRoot? || (spot.Found? && HasDir(spot.e.attr))))
    || (rc == -3 && spot.Found? && noBlock)
  }

  /**
   `exec_run_path`: whatever way it ends, the heap afterwards is the heap before but for the
   pages the program itself took and kept and, for a file of at most 4064 bytes, the file's
   block. Every block is freed while it is live, so none is freed twice. The one exception is a
   program that gives back a page it does not hold: the heap is unsound from then on, and the
   account ends with the `calls` it made before.
   */
  method RunPath(fs: Fat16, heap: K.Heap, path: seq<byte>, app: seq<AppCall>, exit: int, ghost cat: Catalog)
    returns (rc: int, ran: bool, calls: nat, held: seq<nat>, ghost spot: Spot, ghost base: Ledger, ghost at: nat,
             ghost raw: nat, ghost img: X.ExecImage, ghost block: seq<byte>)
    requires fs.Mounted() && WellFormedVolume(fs.View(), cat) && heap.Valid()
    requires BlockTells(Resolve(fs.View(), cat, Norm(path, PATH_CAP)), heap)
    requires TameFile(fs.View(), cat, Resolve(fs.View(), cat, Norm(path, PATH_CAP)))
    modifies fs.disk`readFaults, heap`cur, heap`end, heap`mem, heap`led, heap.pmm`top, heap.pmm.slots
    ensures spot == Resolve(fs.View(), cat, Norm(path, PATH_CAP)) && calls <= |app|
    ensures ran && calls < |app| ==> Stray(app[calls], held) && !heap.Valid()
    ensures K.SmallMore(old(heap.led), base, SizeAt(spot))
    ensures SizeAt(spot) == 0 || SizeAt(spot) > K.SMALL_MAX ==> base == old(heap.led)
    ensures !ran || calls == |app| ==>
      && heap.Valid() && Holds(base, heap.led, held) && (held == [] ==> heap.led == base)
      && PageList.Pages(held) <= Idle(base)
      && PageList.Pages(heap.pmm.Free()) == Idle(base) - PageList.Pages(held)
    ensures ran ==>
      rc == exit && spot.Found? && !HasDir(spot.e.attr) && Entered(FileBytes(fs.View(), cat, spot.e), img, block)
    ensures !ran ==> rc != 0 && held == []
    ensures !ran && fs.disk.readFaults == old(fs.disk.readFaults) ==>
      || NoFile(rc, spot, K.NoBlock(old(heap.cur), old(heap.end), Idle(old(heap.led)), SizeAt(spot)))
      || (spot.Found? && !HasDir(spot.e.attr)
          && WhyNot(rc, FileBytes(fs.View(), cat, spot.e), base, at, raw, img, block))
  {
    hide WellFormedVolume, Resolve, Norm, ViewOf, Laid, FileBytes, K.BigPages, K.HasRun, Idle, Partitioned, SmallsApart,
         K.BumpOk, K.Headers, PageList.FreeList, Holds, X.Tame, X.CodeMeans, X.IsLoaded, Canonical, NoStack,
         K.SmallMore, FileHeld, X.LoadWrites, X.ImagePlace, X.OwnBlock, K.Tells, BlockTells, K.NoBlock, K.InMemory,
           Stray;
    held, ran, calls, raw, img, block := [], false, 0, 0, X.NO_IMAGE, [];
    ghost var l := heap.led;
    var file, buf;
    rc, file, buf, spot, base := ReadWhole(fs, heap, path, cat);
    at := file;
    BigLeavesNone(l, base, SizeAt(spot));
    HoldsNone(base);
    if buf.Length == 0 {
      NoneHeld(base, heap.led, heap.mem, file);
      HeldLeave(base, heap.led, held);
      assert buf[..] == [];
      if rc == 0 {
        rc := -2;
      }
      return;
    }
    ghost var during, mem := heap.led, heap.mem;
    var image, m;
    ghost var plain, lo, hi;
    rc, image, m, plain, lo, hi, raw := X.LoadPie(buf[..], heap);
    img, block := image, m[..];
    PlaceOfWrites(during, mem, heap.mem, raw, hi - lo);
    FileLeft(base, during, heap.led, file, buf.Length, rc, image, mem, heap.mem, raw, hi - lo);
    heap.Kfree(file);
    if rc != 0 {
      assert LoaderSays(rc, buf[..], base, at, raw);
      HeldLeave(base, heap.led, held);
      return;
    }
    rc, ran, calls, held := Enter(heap, image, app, exit, base, K.BigPages(image.size + PageList.PAGE));
    if !ran || calls == |app| {
      HeldLeave(base, heap.led, held);
    }
  }

  lemma PlaceOfWrites(during: Ledger, was: map<nat, nat>, mem: map<nat, nat>, raw: nat, n: nat)
    requires X.LoadWrites(during, was, mem, raw, n)
    ensures raw != 0 ==> X.ImagePlace(during, raw, n)
  {
    hide X.ImagePlace;
  }

  lemma BigLeavesNone(was: Ledger, base: Ledger, size: nat)
    ensures K.SmallMore(was, base, size) && (size == 0 || size > K.SMALL_MAX) ==> base == was
  {
  }

  lemma NoneHeld(base: Ledger, now: Ledger, mem: map<nat, nat>, p: nat)
    requires FileHeld(base, now, mem, p, 0)
    ensures now == base
  {
  }

  // After the loader, the file's block can be given back: what remains is the image's, if there is one.
  lemma FileLeft(base: Ledger, during: Ledger, now: Ledger, p: nat, size: nat, rc: int, img: X.ExecImage,
                 was: map<nat, nat>, mem: map<nat, nat>, raw: nat, span: nat)
    requires FileHeld(base, during, was, p, size) && size > 0 && X.LoadWrites(during, was, mem, raw, span)
    requires X.OwnBlock(rc, img, during, now) && Partitioned(during) && SmallsApart(during)
    requires Partitioned(now) && SmallsApart(now)
    ensures p >= HDR && K.Tells(now, mem, p) && (p - HDR in now.bigs <==> size > K.SMALL_MAX)
    ensures var after := if size > K.SMALL_MAX then GiveBig(now, p - HDR) else now;
      if rc == 0 then
        && img.raw > HDR && img.raw - HDR !in base.bigs
          && IdleRun(base, img.raw - HDR, K.BigPages(img.size + PageList.PAGE))
        && after == TakeBig(base, img.raw - HDR, K.BigPages(img.size + PageList.PAGE))
      else after == base
  {
    hide K.BigPages, Idle, Partitioned, SmallsApart, X.LoadWrites, IdleRun;
    var n, k := K.BigPages(size), K.BigPages(img.size + PageList.PAGE);
    if size > K.SMALL_MAX {
      if rc == 0 {
        IdleBefore(base, p - HDR, n, img.raw - HDR, k);
        FirstBack(base, p - HDR, n, img.raw - HDR, k);
      } else {
        TakenBack(base, p - HDR, n);
      }
    } else {
      K.SmallIsNoBig(during, p);
      K.SmallIsNoBig(now, p);
      X.LoadSpares(during, was, mem, raw, span, p);
    }
  }

  // A place that is idle beside one block is idle without it.
  lemma IdleBefore(l: Ledger, f: nat, n: nat, i: nat, m: nat)
    requires f !in l.bigs && IdleRun(TakeBig(l, f, n), i, m)
    ensures IdleRun(l, i, m)
  {
    forall p
      ensures InBig(l, p) ==> InBig(TakeBig(l, f, n), p)
    {
      if InBig(l, p) {
        var b :| b in l.bigs && p in RunOfBig(l, b);
        assert p in RunOfBig(TakeBig(l, f, n), b);
      }
    }
  }

  // The pages a program holds are the ones missing from the free list.
  lemma HeldLeave(was: Ledger, now: Ledger, held: seq<nat>)
    requires Partitioned(was) && Partitioned(now) && Holds(was, now, held)
    ensures PageList.Pages(held) <= Idle(was) && Idle(now) == Idle(was) - PageList.Pages(held)
  {
    hide BigFits, InBig;
    forall p
      ensures InBig(now, p) <==> InBig(was, p)
      ensures p in held ==> p in was.all && p !in was.bump && !InBig(now, p)
    {
      SameBigs(was, now, p);
      if p in held {
        assert p in now.direct;
        OneUse(now, p);
      }
    }
  }

  /** From the loaded image on: a stack, the program, and both blocks back. */
  method Enter(heap: K.Heap, img: X.ExecImage, app: seq<AppCall>, exit: int, ghost l: Ledger, ghost k: nat)
    returns (rc: int, ran: bool, calls: nat, held: seq<nat>)
    requires heap.Valid() && img.raw > HDR && img.raw - HDR !in l.bigs && heap.led == TakeBig(l, img.raw - HDR, k)
    requires k == K.BigPages(img.size + PageList.PAGE) && IdleRun(l, img.raw - HDR, k)
    modifies heap`cur, heap`end, heap`mem, heap`led, heap.pmm`top, heap.pmm.slots
    ensures !ran || calls == |app| ==> heap.Valid() && Holds(l, heap.led, held) && (held == [] ==> heap.led == l)
    ensures calls <= |app| && (ran && calls < |app| ==> Stray(app[calls], held) && !heap.Valid())
    ensures ran ==> rc == exit
    ensures !ran ==> rc == -4 && held == [] && NoStack(l, img)
  {
    hide K.BigPages, K.HasRun, Idle, Partitioned, SmallsApart, K.BumpOk, K.Headers, PageList.FreeList, Holds, K.Freed,
         K.SmallAt, K.Room, K.OnlyHeaders, K.Word, IdleRun, PageList.AlignDown, Stray;
    held, calls := [], 0;
    HoldsNone(l);
    K.BigPagesFit(STACK);
    var stk := heap.Kmalloc(STACK);
    if stk == 0 {
      assert !K.HasRun(Idle(TakeBig(l, img.raw - HDR, k)), K.BigPages(STACK));
      TakenBack(l, img.raw - HDR, k);
      heap.Kfree(img.raw);
      return -4, false, calls, held;
    }
    ghost var n := K.BigPages(STACK);
    held, calls := RunApp(heap, app);
    if calls < |app| {
      return exit, true, calls, held;
    }
    BothBack(l, heap.led, img.raw - HDR, k, stk - HDR, n, held);
    heap.Kfree(stk);
    heap.Kfree(img.raw);
    if held == [] {
      HoldsNothing(l, heap.led);
    }
    return exit, true, calls, held;
  }

  lemma HoldsNothing(was: Ledger, now: Ledger)
    requires Holds(was, now, [])
    ensures now == was
  {
    assert was.direct + PageList.Pages([]) == was.direct;
  }
}
