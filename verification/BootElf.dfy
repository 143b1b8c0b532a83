/** The boot-time loader of the kernel, at the addresses the file asks for. */
module BootElf {
  import opened Bytes
  import opened Elf
  import opened PageList
  import X = ExecElf

  const ET_EXEC := 2
  const EM_X86_64 := 62

  datatype Status = Success | LoadError | Unsupported | NoPages(code: nat)

  /** Off and Size lie within Limit, computed without a sum that could wrap. */
  predicate InBounds(off: nat, size: nat, limit: nat)
    ensures InBounds(off, size, limit) <==> off + size <= limit
  {
    off <= limit && size <= limit - off
  }

  function HeaderStatus(file: seq<byte>): (st: Status)
    ensures st != Unsupported ==> st == Success || st == LoadError
    ensures st == Success ==> |file| >= EHDR
  {
    if |file| < EHDR then LoadError
    else
      var h := EhdrOf(file);
      if file[..4] != [0x7F, 0x45, 0x4C, 0x46] then LoadError
      else if file[4] != 2 || file[5] != 1 || h.machine != EM_X86_64 || h.kind != ET_EXEC then Unsupported
      else if h.phentsize != PHDR then Unsupported
      else if !InBounds(h.phoff, h.phentsize * h.phnum, |file|) then LoadError
      else Success
  }

  function Headers(file: seq<byte>): seq<Phdr>
    requires HeaderStatus(file) == Success
  {
    var h := EhdrOf(file);
    Phdrs(file, h.phoff, h.phnum)
  }

  // The physical address wins unless it is 0.
  function SegOf(p: Phdr): Seg {
    Seg(p.kind == PT_LOAD, if p.paddr != 0 then p.paddr else p.vaddr, p.offset, p.filesz, p.memsz)
  }

  function Segs(ps: seq<Phdr>): (r: seq<Seg>)
    ensures |r| == |ps|
  {
    seq(|ps|, i requires 0 <= i < |ps| => SegOf(ps[i]))
  }

  /** What the header decides, by its fields. */
  lemma HeaderStatuses(file: seq<byte>, h: RawEhdr)
    requires |h.ident| == 16 && EhdrBytes(h) <= file
    ensures HeaderStatus(file)
         == if h.ident[..4] != [0x7F, 0x45, 0x4C, 0x46] then LoadError
            else if h.ident[4] != 2 || h.ident[5] != 1 || h.machine != 62 || h.kind != 2 || h.phentsize != 56
              then Unsupported
            else if h.phoff + h.phnum * 56 > |file| then LoadError else Success
  {
    hide EhdrBytes, EhdrOf;
    EhdrLayout(file, h);
    assert file[..4] == file[..16][..4] && file[4] == file[..16][4] && file[5] == file[..16][5];
  }

  /** For every file laid out as header and table: the segments are those its table asks for. */
  lemma FileLayout(file: seq<byte>, h: RawEhdr, ps: seq<RawPhdr>, i: nat)
    requires |h.ident| == 16 && EhdrBytes(h) <= file && HeaderStatus(file) == Success
    requires h.phnum == |ps| && PhdrsAt(file, h.phoff, ps) && i < |ps|
    ensures |Headers(file)| == |ps| && EhdrOf(file).entry == h.entry
    ensures Segs(Headers(file))[i]
         == Seg(ps[i].kind == 1, if ps[i].paddr == 0 then ps[i].vaddr else ps[i].paddr, ps[i].offset, ps[i].filesz,
                ps[i].memsz)
  {
    hide EhdrBytes, PhdrBytes, EhdrOf, PhdrOf, HeaderStatus;
    EhdrLayout(file, h);
    HeaderStatuses(file, h);
    PhdrLayout(file, h.phoff + i * PHDR, ps[i]);
  }

  // No end wraps, rounded up to a page, and a segment without memory has no file bytes.
  ghost predicate Sane(gs: seq<Seg>) {
    forall i :: 0 <= i < |gs| && gs[i].load ==>
      gs[i].at + gs[i].memsz + PAGE < U64 && (gs[i].memsz == 0 ==> gs[i].filesz == 0)
  }

  // ----- first pass -----

  ghost predicate SegOk(g: Seg, size: nat) {
    g.filesz <= g.memsz && (g.filesz > 0 ==> g.offset + g.filesz <= size)
  }

  ghost predicate FirstSized(gs: seq<Seg>, n: nat, f: nat)
    requires n <= |gs|
  {
    f < n && Sized(gs[f]) && forall j :: 0 <= j < f ==> !Sized(gs[j])
  }

  // The entry lies in the first segment with memory among the first n.
  ghost predicate EntryInFirst(gs: seq<Seg>, n: nat, entry: nat)
    requires n <= |gs|
  {
    exists f: nat :: FirstSized(gs, n, f) && gs[f].at <= entry < gs[f].at + gs[f].memsz
  }

  ghost predicate AllOk(gs: seq<Seg>, n: nat, size: nat)
    requires n <= |gs|
  {
    forall i :: 0 <= i < n && Sized(gs[i]) ==> SegOk(gs[i], size)
  }

  /**
   The first pass accepts exactly the files whose sized segments are all in order and whose
   entry lies in the first of them: the range it is checked against only grows.
   */
  method Measure(ps: seq<Phdr>, size: nat, entry: nat) returns (ok: bool, min: nat, max: nat)
    requires Sane(Segs(ps))
    ensures ok <==> AllOk(Segs(ps), |ps|, size) && EntryInFirst(Segs(ps), |ps|, entry)
    ensures ok ==> Spans(Segs(ps), |ps|, min, max) && min < max && min <= entry < max
  {
    hide Spans, EntryInFirst;
    ghost var gs := Segs(ps);
    var found := false;
    min, max := U64 - 1, 0;
    var i := 0;
    while i < |ps|
      invariant 0 <= i <= |ps| && AllOk(gs, i, size) && (found <==> !NoneSized(gs, i))
      invariant found ==> Spans(gs, i, min, max) && min <= entry < max && EntryInFirst(gs, i, entry)
      invariant !found ==> min == U64 - 1 && max == 0
    {
      var g := SegOf(ps[i]);
      assert gs[i] == g;
      if g.load && g.memsz != 0 {
        if g.filesz > g.memsz {
          assert !SegOk(gs[i], size);
          return false, min, max;
        }
        if g.filesz > 0 && !InBounds(g.offset, g.filesz, size) {
          assert !SegOk(gs[i], size);
          return false, min, max;
        }
        ghost var none, lo0, hi0 := !found, min, max;
        if g.at < min {
          min := g.at;
        }
        if g.at + g.memsz > max {
          max := g.at + g.memsz;
        }
        SpansMore(gs, i, none, lo0, hi0);
        if none {
          FirstDecides(gs, i, entry);
        } else {
          FirstStays(gs, i, entry);
        }
        if entry < min || entry >= max {
          return false, min, max;
        }
        found := true;
      } else {
        SpansSame(gs, i, !found, min, max);
        if found {
          FirstStays(gs, i, entry);
        }
      }
      i := i + 1;
    }
    if !found {
      NoneFirst(gs, |gs|, entry);
    }
    return found, min, max;
  }

  lemma NoneFirst(gs: seq<Seg>, n: nat, entry: nat)
    requires n <= |gs| && NoneSized(gs, n)
    ensures !EntryInFirst(gs, n, entry)
  {
  }

  lemma FirstStays(gs: seq<Seg>, i: nat, entry: nat)
    requires i < |gs| && EntryInFirst(gs, i, entry)
    ensures forall n :: i <= n <= |gs| ==> EntryInFirst(gs, n, entry)
  {
    var f: nat :| FirstSized(gs, i, f) && gs[f].at <= entry < gs[f].at + gs[f].memsz;
    forall n | i <= n <= |gs|
      ensures EntryInFirst(gs, n, entry)
    {
      assert FirstSized(gs, n, f);
    }
  }

  lemma FirstDecides(gs: seq<Seg>, i: nat, entry: nat)
    requires i < |gs| && Sized(gs[i]) && NoneSized(gs, i)
    ensures forall n :: i < n <= |gs| ==> (EntryInFirst(gs, n, entry) <==> gs[i].at <= entry < gs[i].at + gs[i].memsz)
  {
    forall n | i < n <= |gs|
      ensures EntryInFirst(gs, n, entry) <==> gs[i].at <= entry < gs[i].at + gs[i].memsz
    {
      assert FirstSized(gs, n, i);
      if EntryInFirst(gs, n, entry) {
        var f: nat :| FirstSized(gs, n, f) && gs[f].at <= entry < gs[f].at + gs[f].memsz;
        assert f == i;
      }
    }
  }

  // ----- loading -----

  /**
   The firmware's page allocation at a fixed address, as far as it matters here: a status
   the firmware chose, and success only for memory that exists.
   */
  function AllocatePages(ram: nat, at: nat, pages: nat, firmware: nat): (st: Status)
    ensures st == Success ==> at + pages * PAGE <= ram
  {
    if firmware != 0 then NoPages(firmware)
    else if at + pages * PAGE > ram then NoPages(14)
    else Success
  }

  // The kernel as it lies in memory: whole pages around its segments, and nothing else touched.
  ghost predicate IsLoaded(ram: seq<byte>, was: seq<byte>, file: seq<byte>, min: nat, max: nat) {
    && HeaderStatus(file) == Success
    && var gs := Segs(Headers(file));
       && InFile(gs, |file|) && Spans(gs, |gs|, min, max) && min < max
       && var lo, hi := AlignDown(min), AlignUp(max);
          && hi <= |ram| == |was|
          && Overlaid(ram[lo..hi], lo, file, gs, |gs|)
          && forall x :: 0 <= x < |ram| && !(lo <= x < hi) ==> ram[x] == was[x]
  }

  ghost predicate Accepted(file: seq<byte>) {
    && HeaderStatus(file) == Success
    && var gs := Segs(Headers(file));
       AllOk(gs, |gs|, |file|) && EntryInFirst(gs, |gs|, EhdrOf(file).entry)
  }

  /** `Elf64LoadKernel`. */
  method LoadKernel(file: seq<byte>, ram: array<byte>, firmware: nat)
    returns (st: Status, entry: nat, ghost min: nat, ghost max: nat)
    requires HeaderStatus(file) == Success ==> Sane(Segs(Headers(file)))
    modifies ram
    ensures st == Success ==>
      Accepted(file) && IsLoaded(ram[..], old(ram[..]), file, min, max) && entry == EhdrOf(file).entry
        && min <= entry < max
    ensures st != Success ==> entry == 0 && ram[..] == old(ram[..])
    ensures HeaderStatus(file) != Success ==> st == HeaderStatus(file)
    ensures HeaderStatus(file) == Success && !Accepted(file) ==> st == LoadError
    ensures Accepted(file) ==>
      && Spans(Segs(Headers(file)), |Headers(file)|, min, max) && min < max
      && st == AllocatePages(ram.Length, AlignDown(min), (AlignUp(max) - AlignDown(min)) / PAGE, firmware)
  {
    hide HeaderStatus, Headers, Segs, Spans, EntryInFirst, Overlaid, AllOk, AlignDown, AlignUp;
    entry, min, max := 0, 0, 0;
    st := HeaderStatus(file);
    if st != Success {
      return;
    }
    var ps := Headers(file);
    ghost var gs := Segs(ps);
    var ok, lo, hi := Measure(ps, |file|, EhdrOf(file).entry);
    if !ok {
      return LoadError, 0, 0, 0;
    }
    min, max := lo, hi;
    OkIsInFile(gs, |file|);
    var pageMin, pageMax := AlignDown(lo), AlignUp(hi);
    var pages := (pageMax - pageMin) / PAGE;
    st := AllocatePages(ram.Length, pageMin, pages, firmware);
    if st != Success {
      return;
    }
    WholePages(pageMin, pageMax);
    CopyAll(ram, pageMin, pages * PAGE, file, ps, lo, hi);
    assert ram[..][pageMin..pageMax] == ram[pageMin..pageMax];
    entry := EhdrOf(file).entry;
  }

  lemma WholePages(lo: nat, hi: nat)
    requires lo % PAGE == 0 && hi % PAGE == 0 && lo <= hi
    ensures (hi - lo) / PAGE * PAGE == hi - lo
  {
  }

  lemma OkIsInFile(gs: seq<Seg>, size: nat)
    requires AllOk(gs, |gs|, size) && Sane(gs)
    ensures InFile(gs, size)
  {
    forall i | 0 <= i < |gs| && gs[i].load && gs[i].filesz > 0
      ensures gs[i].offset + gs[i].filesz <= size
    {
      assert Sized(gs[i]) && SegOk(gs[i], size);
    }
  }

  /** Zeroing the pages and the second pass. */
  method CopyAll(ram: array<byte>, from: nat, n: nat, file: seq<byte>, ps: seq<Phdr>, ghost min: nat, ghost max: nat)
    requires from + n <= ram.Length && from <= min && max <= from + n
    requires Spans(Segs(ps), |ps|, min, max) && Sane(Segs(ps)) && AllOk(Segs(ps), |ps|, |file|)
      && InFile(Segs(ps), |file|)
    modifies ram
    ensures Overlaid(ram[from..from + n], from, file, Segs(ps), |ps|)
    ensures forall x :: 0 <= x < ram.Length && !(from <= x < from + n) ==> ram[x] == old(ram[x])
  {
    hide Overlaid;
    ghost var gs := Segs(ps);
    for k := 0 to n
      invariant forall x :: from <= x < from + k ==> ram[x] == 0
      invariant forall x :: 0 <= x < ram.Length && !(from <= x < from + n) ==> ram[x] == old(ram[x])
    {
      ram[from + k] := 0;
    }
    ZerosAreBare(ram[from..from + n], from, file, gs);
    for i := 0 to |ps|
      invariant Overlaid(ram[from..from + n], from, file, gs, i)
      invariant forall x :: 0 <= x < ram.Length && !(from <= x < from + n) ==> ram[x] == old(ram[x])
    {
      var g := SegOf(ps[i]);
      assert gs[i] == g;
      if g.load && g.filesz > 0 {
        assert Sized(g) && SegOk(g, |file|);
        // The source checks the bounds a second time; the first pass has settled it.
        assert InBounds(g.offset, g.filesz, |file|);
        CopySegment(ram, from, n, from, file, gs, i, g);
      } else {
        OverlaySkip(ram[from..from + n], from, file, gs, i);
      }
    }
  }

  /**
   Where both loaders place the segments alike, a byte of the kernel's memory and a byte of
   the program's image that stand for the same address are the same.
   */
  lemma BothLoadersAgree(file: seq<byte>, ps: seq<Phdr>, ram: seq<byte>, lo: nat, plain: seq<byte>, lo': nat, x: nat,
                         y: nat)
    requires forall i :: 0 <= i < |ps| ==> ps[i].paddr == 0 || ps[i].paddr == ps[i].vaddr
    requires InFile(Segs(ps), |file|) && Overlaid(ram, lo, file, Segs(ps), |ps|)
    requires InFile(X.Segs(ps), |file|) && Overlaid(plain, lo', file, X.Segs(ps), |ps|)
    requires x < |ram| && y < |plain| && lo + x == lo' + y
    ensures ram[x] == plain[y]
  {
    assert Segs(ps) == X.Segs(ps);
    OverlayIsUnique(ram, lo, plain, lo', file, Segs(ps), x, y);
  }
}
