/** The loader for position-independent programs. */
module ExecElf {
  import opened Bytes
  import opened Elf
  import opened PageList
  import opened Ownership
  import opened Reloc
  import K = Kmem

  const ET_DYN := 3
  const EM_X86_64 := 62

  /** Where a program was loaded: its heap block, its image, and its entry point. */
  datatype ExecImage = ExecImage(raw: nat, base: nat, size: nat, entry: nat)

  const NO_IMAGE := ExecImage(0, 0, 0, 0)

  // ----- the checks on the header -----

  function HeaderCode(file: seq<byte>): (rc: int)
    ensures rc == 0 || rc == -1 || -18 <= rc <= -11
    ensures rc == 0 ==> |file| >= EHDR
  {
    if |file| < EHDR then -1
    else
      var h := EhdrOf(file);
      if file[..4] != [0x7F, 0x45, 0x4C, 0x46] then -11
      else if file[4] != 2 then -12
      else if file[5] != 1 then -13
      else if h.machine != EM_X86_64 then -14
      else if h.kind != ET_DYN then -15
      else if h.phoff == 0 || h.phnum == 0 then -16
      else if h.phentsize != PHDR then -17
      else if h.phoff + h.phnum * PHDR > |file| then -18
      else 0
  }

  function Headers(file: seq<byte>): (r: seq<Phdr>)
    requires HeaderCode(file) == 0
    ensures |r| > 0
  {
    var h := EhdrOf(file);
    Phdrs(file, h.phoff, h.phnum)
  }

  function SegOf(p: Phdr): Seg {
    Seg(p.kind == PT_LOAD, p.vaddr, p.offset, p.filesz, p.memsz)
  }

  function Segs(ps: seq<Phdr>): (r: seq<Seg>)
    ensures |r| == |ps|
  {
    seq(|ps|, i requires 0 <= i < |ps| => SegOf(ps[i]))
  }

  /** The refusals of a file by the fields of its header, in the order in which they are looked at. */
  lemma HeaderCodes(file: seq<byte>, h: RawEhdr)
    requires |h.ident| == 16 && EhdrBytes(h) <= file && h.phoff + h.phnum * 56 < U64
    ensures HeaderCode(file)
         == if h.ident[..4] != [0x7F, 0x45, 0x4C, 0x46] then -11
            else if h.ident[4] != 2 then -12
            else if h.ident[5] != 1 then -13
            else if h.machine != 62 then -14
            else if h.kind != 3 then -15
            else if h.phoff == 0 || h.phnum == 0 then -16
            else if h.phentsize != 56 then -17
            else if h.phoff + h.phnum * 56 > |file| then -18 else 0
  {
    hide EhdrBytes, EhdrOf;
    EhdrLayout(file, h);
    assert file[..4] == file[..16][..4] && file[4] == file[..16][4] && file[5] == file[..16][5];
  }

  /** For every file laid out as header and table: the segments are those its table asks for. */
  lemma FileLayout(file: seq<byte>, h: RawEhdr, ps: seq<RawPhdr>, i: nat)
    requires |h.ident| == 16 && EhdrBytes(h) <= file && HeaderCode(file) == 0 && h.phoff + h.phnum * 56 < U64
    requires h.phnum == |ps| && PhdrsAt(file, h.phoff, ps) && i < |ps|
    ensures |Headers(file)| == |ps| && EhdrOf(file).entry == h.entry
    ensures Segs(Headers(file))[i] == Seg(ps[i].kind == 1, ps[i].vaddr, ps[i].offset, ps[i].filesz, ps[i].memsz)
    ensures Headers(file)[i].kind == PT_DYNAMIC <==> ps[i].kind == 2
    ensures Headers(file)[i].vaddr == ps[i].vaddr && Headers(file)[i].memsz == ps[i].memsz
  {
    hide EhdrBytes, PhdrBytes, EhdrOf, PhdrOf, HeaderCode;
    EhdrLayout(file, h);
    HeaderCodes(file, h);
    PhdrLayout(file, h.phoff + i * PHDR, ps[i]);
  }

  // ----- first pass -----

  ghost predicate OutOfFile(g: Seg, size: nat) {
    Sized(g) && g.offset + g.filesz > size
  }

  // d is the place of the last dynamic header among the first n, or n if there is none.
  ghost predicate LastDynamic(ps: seq<Phdr>, n: nat, d: int)
    requires n <= |ps|
  {
    && -1 <= d < n
    && (d >= 0 ==> ps[d].kind == PT_DYNAMIC)
    && forall j :: d < j < n ==> ps[j].kind != PT_DYNAMIC
  }

  /** The span of the segments, or the first reason to refuse them. */
  method Measure(ps: seq<Phdr>, size: nat) returns (rc: int, lo: nat, hi: nat, dyn: int)
    requires AllSane(Segs(ps))
    ensures rc == 0 || rc == -19 || rc == -20
    ensures rc == -19 <==> SomeOutOfFile(Segs(ps), size)
    ensures rc == -20 <==> NoneSized(Segs(ps), |ps|)
    ensures rc == 0 ==>
      Spans(Segs(ps), |ps|, lo, hi) && lo < hi && InFile(Segs(ps), size) && LastDynamic(ps, |ps|, dyn)
  {
    hide Spans;
    ghost var gs := Segs(ps);
    lo, hi, dyn := U64 - 1, 0, -1;
    var i := 0;
    while i < |ps|
      invariant 0 <= i <= |ps| && LastDynamic(ps, i, dyn)
      invariant forall j :: 0 <= j < i ==> !OutOfFile(gs[j], size)
      invariant if NoneSized(gs, i) then lo == U64 - 1 && hi == 0 else lo < hi && lo < U64 - 1 && Spans(gs, i, lo, hi)
    {
      var p := ps[i];
      assert gs[i] == SegOf(p) && Sane(gs[i]);
      ghost var none, lo0, hi0 := NoneSized(gs, i), lo, hi;
      if p.kind == PT_LOAD {
        if p.memsz != 0 {
          if p.offset + p.filesz > size {
            assert OutOfFile(gs[i], size);
            return -19, lo, hi, dyn;
          }
          if p.vaddr < lo {
            lo := p.vaddr;
          }
          var end := p.vaddr + p.memsz;
          if end > hi {
            hi := end;
          }
          SpansMore(gs, i, none, lo0, hi0);
        } else {
          SpansSame(gs, i, none, lo0, hi0);
        }
      } else {
        if p.kind == PT_DYNAMIC {
          dyn := i;
        }
        SpansSame(gs, i, none, lo0, hi0);
      }
      i := i + 1;
    }
    if lo == U64 - 1 {
      return -20, lo, hi, dyn;
    }
    NoneOutOfFile(gs, size);
    return 0, lo, hi, dyn;
  }

  lemma NoneOutOfFile(gs: seq<Seg>, size: nat)
    requires AllSane(gs) && forall j :: 0 <= j < |gs| ==> !OutOfFile(gs[j], size)
    ensures InFile(gs, size)
  {
    forall j | 0 <= j < |gs| && gs[j].load && gs[j].filesz > 0
      ensures gs[j].offset + gs[j].filesz <= size
    {
      assert !OutOfFile(gs[j], size) && Sane(gs[j]);
    }
  }

  // ----- second pass -----

  // Segment g's file bytes reach past the image.
  ghost predicate SticksOut(g: Seg, lo: nat, size: nat) {
    g.load && g.filesz > 0 && g.at - lo + g.filesz > size
  }

  /** The image, from whatever the block held: zeros, then every segment in turn. */
  method Overlay(m: array<byte>, pad: nat, size: nat, file: seq<byte>, ps: seq<Phdr>, lo: nat, ghost hi: nat)
    returns (rc: int)
    requires pad + size <= m.Length && AllSane(Segs(ps)) && InFile(Segs(ps), |file|)
    requires Spans(Segs(ps), |ps|, lo, hi) && size == hi - lo
    modifies m
    ensures rc == 0 || rc == -22
    ensures rc == -22 <==> exists i :: 0 <= i < |ps| && SticksOut(Segs(ps)[i], lo, size)
    ensures rc == 0 ==> Overlaid(m[pad..pad + size], lo, file, Segs(ps), |ps|)
  {
    ghost var gs := Segs(ps);
    Clear(m, pad, size);
    ZerosAreBare(m[pad..pad + size], lo, file, gs);
    for i := 0 to |ps|
      invariant forall j :: 0 <= j < i ==> !SticksOut(gs[j], lo, size)
      invariant Overlaid(m[pad..pad + size], lo, file, gs, i)
    {
      var g := SegOf(ps[i]);
      assert gs[i] == g && Sane(g);
      if g.load && g.filesz != 0 {
        assert Sized(g) && lo <= g.at;
        if g.at - lo + g.filesz > size {
          assert SticksOut(gs[i], lo, size);
          return -22;
        }
        CopySegment(m, pad, size, lo, file, gs, i, g);
      } else {
        OverlaySkip(m[pad..pad + size], lo, file, gs, i);
      }
    }
    return 0;
  }

  method Clear(m: array<byte>, from: nat, n: nat)
    requires from + n <= m.Length
    modifies m
    ensures forall x :: from <= x < from + n ==> m[x] == 0
  {
    for k := 0 to n
      invariant forall x :: from <= x < from + k ==> m[x] == 0
    {
      m[from + k] := 0;
    }
  }

  // ----- the loader -----

  // The image inside its block.
  function ImageIn(img: ExecImage, block: seq<byte>): seq<byte>
    requires img.raw <= img.base && img.base + img.size <= img.raw + |block|
  {
    block[img.base - img.raw..img.base - img.raw + img.size]
  }

  // The image's bytes, before and after linking at that base.
  ghost predicate LinkedImage(plain: seq<byte>, now: seq<byte>, base: nat, lo: nat, ps: seq<Phdr>) {
    |now| == |plain|
    && forall d :: LastDynamic(ps, |ps|, d) ==>
      if d < 0 then now == plain else Linked(plain, base, lo, ps[d].vaddr, ps[d].memsz) == Image(now)
  }

  // The image does not lead the dynamic part astray, whatever the base.
  ghost predicate StaysIn(plain: seq<byte>, lo: nat, ps: seq<Phdr>) {
    forall d, base: nat :: LastDynamic(ps, |ps|, d) && d >= 0 ==>
      !Linked(plain, base, lo, ps[d].vaddr, ps[d].memsz).Astray?
  }

  /** No 64-bit sum over the file's headers wraps, and its dynamic section is closed. */
  ghost predicate Tame(file: seq<byte>) {
    && (|file| >= EHDR ==> EhdrOf(file).phoff + EhdrOf(file).phnum * PHDR < U64)
    && (HeaderCode(file) == 0 ==> TameSegs(file, Headers(file)))
  }

  ghost predicate TameSegs(file: seq<byte>, ps: seq<Phdr>) {
    && AllSane(Segs(ps))
    && (InFile(Segs(ps), |file|) ==>
          forall lo: nat, hi: nat :: Spans(Segs(ps), |ps|, lo, hi) ==>
            hi - lo + 3 * PAGE < U64 && forall plain :: IsPlain(plain, file, ps, lo, hi) ==> StaysIn(plain, lo, ps))
  }

  // The image before linking.
  ghost predicate IsPlain(plain: seq<byte>, file: seq<byte>, ps: seq<Phdr>, lo: nat, hi: nat)
    requires InFile(Segs(ps), |file|)
  {
    |plain| == hi - lo && Overlaid(plain, lo, file, Segs(ps), |ps|)
  }

  // What a successful load leaves in the block at img.raw.
  ghost predicate IsLoaded(img: ExecImage, block: seq<byte>, file: seq<byte>, plain: seq<byte>, lo: nat, hi: nat) {
    && HeaderCode(file) == 0 && lo < hi
    && var ps := Headers(file);
       var entry := EhdrOf(file).entry;
       && InFile(Segs(ps), |file|) && Spans(Segs(ps), |ps|, lo, hi)
       && img.size == hi - lo && |block| == img.size + PAGE
       && img.base % PAGE == 0 && img.raw <= img.base && img.base + img.size <= img.raw + |block|
       && IsPlain(plain, file, ps, lo, hi)
       && LinkedImage(plain, ImageIn(img, block), img.base, lo, ps)
       && lo <= entry < hi && img.entry == img.base + (entry - lo)
  }

  ghost predicate SomeSticksOut(gs: seq<Seg>, lo: nat, hi: nat) {
    lo <= hi && exists i :: 0 <= i < |gs| && SticksOut(gs[i], lo, hi - lo)
  }

  // What the loader makes of the overlaid image: linking decides first, then the entry.
  ghost predicate AfterOverlay(rc: int, plain: seq<byte>, base: nat, lo: nat, hi: nat, ps: seq<Phdr>, entry: nat) {
    exists d :: LastDynamic(ps, |ps|, d) &&
      if d >= 0 && Linked(plain, base, lo, ps[d].vaddr, ps[d].memsz).Refused?
      then rc == Linked(plain, base, lo, ps[d].vaddr, ps[d].memsz).rc
      else rc == if lo <= entry < hi then 0 else -27
  }

  /** Both passes and the linking, in a block that lies at `raw`. */
  method Fill(m: array<byte>, raw: nat, file: seq<byte>, ps: seq<Phdr>, lo: nat, ghost hi: nat, size: nat, dyn: int)
    returns (rc: int, img: ExecImage, ghost plain: seq<byte>)
    requires Tame(file) && HeaderCode(file) == 0 && ps == Headers(file)
    requires InFile(Segs(ps), |file|) && Spans(Segs(ps), |ps|, lo, hi) && lo < hi && size == hi - lo
    requires LastDynamic(ps, |ps|, dyn) && m.Length == size + PAGE
    modifies m
    ensures rc == 0 ==> img.raw == raw && img.size == size && img.base == AlignUp(raw)
    ensures rc == 0 ==> IsLoaded(img, m[..], file, plain, lo, hi)
    ensures rc != 0 ==> img == NO_IMAGE
    ensures SomeSticksOut(Segs(ps), lo, hi) ==> rc == -22
    ensures !SomeSticksOut(Segs(ps), lo, hi) ==>
      IsPlain(plain, file, ps, lo, hi) && AfterOverlay(rc, plain, AlignUp(raw), lo, hi, ps, EhdrOf(file).entry)
  {
    hide Linked, HeaderCode, Headers, Segs, SticksOut;
    plain := [];
    var base := AlignUp(raw);
    var pad := base - raw;
    rc := Overlay(m, pad, size, file, ps, lo, hi);
    if rc != 0 {
      return rc, NO_IMAGE, plain;
    }
    plain := m[pad..pad + size];
    assert IsPlain(plain, file, ps, lo, hi);
    assert StaysIn(plain, lo, ps);
    SpanFits(ps, lo, hi);
    if dyn >= 0 {
      rc := Link(m, pad, size, base, lo, ps[dyn].vaddr, ps[dyn].memsz);
      if rc != 0 {
        return rc, NO_IMAGE, plain;
      }
    }
    OneDynamic(ps, dyn);
    assert LinkedImage(plain, m[pad..pad + size], base, lo, ps);
    var entryOff := Sub64(EhdrOf(file).entry, lo);
    EntryInside(EhdrOf(file).entry, lo, hi);
    if entryOff >= size {
      return -27, NO_IMAGE, plain;
    }
    img := ExecImage(raw, base, size, base + entryOff);
    assert m[..][pad..pad + size] == m[pad..pad + size];
  }

  lemma SpanFits(ps: seq<Phdr>, lo: nat, hi: nat)
    requires AllSane(Segs(ps)) && Spans(Segs(ps), |ps|, lo, hi)
    ensures hi < U64
  {
  }

  lemma OneDynamic(ps: seq<Phdr>, dyn: int)
    requires LastDynamic(ps, |ps|, dyn)
    ensures forall d :: LastDynamic(ps, |ps|, d) ==> d == dyn
  {
  }

  lemma EntryInside(entry: nat, lo: nat, hi: nat)
    requires lo < hi < U64 && entry < U64
    ensures Sub64(entry, lo) < hi - lo <==> lo <= entry < hi
    ensures lo <= entry ==> Sub64(entry, lo) == entry - lo
  {
  }

  ghost predicate SomeOutOfFile(gs: seq<Seg>, size: nat) {
    exists i :: 0 <= i < |gs| && OutOfFile(gs[i], size)
  }

  ghost predicate NoRoom(idle: set<nat>, lo: nat, hi: nat) {
    lo < hi && !K.HasRun(idle, K.BigPages(hi - lo + PAGE))
  }

  // The code of the second half, for a block that lies at `raw`; the earliest trouble decides.
  ghost predicate LateCode(rc: int, file: seq<byte>, ps: seq<Phdr>, lo: nat, hi: nat, idle: set<nat>, raw: nat) {
    if NoRoom(idle, lo, hi) then rc == -21 && raw == 0
    else
      && raw > HDR
      && if SomeSticksOut(Segs(ps), lo, hi) then rc == -22
         else
           && InFile(Segs(ps), |file|) && |file| >= EHDR
           && exists plain ::
                IsPlain(plain, file, ps, lo, hi)
                  && AfterOverlay(rc, plain, AlignUp(raw), lo, hi, ps, EhdrOf(file).entry)
  }

  // What each code says; the earliest trouble decides.
  ghost predicate CodeMeans(rc: int, file: seq<byte>, lo: nat, hi: nat, idle: set<nat>, raw: nat) {
    if HeaderCode(file) != 0 then rc == HeaderCode(file) && raw == 0
    else if SomeOutOfFile(Segs(Headers(file)), |file|) then rc == -19 && raw == 0
    else if NoneSized(Segs(Headers(file)), |Headers(file)|) then rc == -20 && raw == 0
    else Spans(Segs(Headers(file)), |Headers(file)|, lo, hi) && LateCode(rc, file, Headers(file), lo, hi, idle, raw)
  }

  // A loaded image has a block of its own; a refused one leaves nothing behind.
  ghost predicate OwnBlock(rc: int, img: ExecImage, was: Ledger, now: Ledger) {
    if rc == 0 then
      && img.raw > HDR && img.raw - HDR !in was.bigs
      && now == TakeBig(was, img.raw - HDR, K.BigPages(img.size + PAGE))
      && IdleRun(was, img.raw - HDR, K.BigPages(img.size + PAGE))
    else img == NO_IMAGE && now == was
  }

  // Where an image of n bytes would go in a block at `raw`, which could be placed there.
  ghost predicate ImagePlace(was: Ledger, raw: nat, n: nat) {
    raw > HDR && IdleRun(was, raw - HDR, K.BigPages(n + PAGE))
    && AlignUp(raw) + n + HDR <= raw - HDR + K.BigPages(n + PAGE) * PAGE
  }

  // What the loader writes to memory: the header of its block, and the image in it.
  ghost predicate LoadWrites(was: Ledger, m0: map<nat, nat>, m1: map<nat, nat>, raw: nat, n: nat) {
    if raw == 0 then m1 == m0
    else
      && ImagePlace(was, raw, n)
      && forall a: nat :: K.Word(m1, a) != K.Word(m0, a) ==>
           (AlignDown(a) in Idle(was) && a % PAGE < HDR) || AlignUp(raw) <= a < AlignUp(raw) + n
  }

  /** The image, on page boundaries inside its block, ends a header's length before the block's pages do. */
  lemma ImageHasPlace(was: Ledger, raw: nat, n: nat)
    requires raw > HDR && IdleRun(was, raw - HDR, K.BigPages(n + PAGE)) && n + 3 * PAGE < U64
    ensures ImagePlace(was, raw, n)
    ensures raw <= AlignUp(raw) && AlignUp(raw) + n <= raw + (K.BigPages(n + PAGE) * PAGE - HDR)
  {
    hide Idle, RunOf;
    K.BigPagesFit(n + PAGE);
    assert AlignUp(raw) == raw - HDR + PAGE;
  }

  lemma BothWrites(was: Ledger, m0: map<nat, nat>, m1: map<nat, nat>, m2: map<nat, nat>, raw: nat, n: nat)
    requires ImagePlace(was, raw, n) && K.OnlyHeaders(was, m0, m1) && K.OnlyIn(m1, m2, AlignUp(raw), AlignUp(raw) + n)
    ensures LoadWrites(was, m0, m2, raw, n)
  {
    hide K.Word, K.BigPages, IdleRun, Idle;
    forall a: nat | K.Word(m2, a) != K.Word(m0, a)
      ensures (AlignDown(a) in Idle(was) && a % PAGE < HDR) || AlignUp(raw) <= a < AlignUp(raw) + n
    {
      assert K.Word(m2, a) != K.Word(m1, a) || K.Word(m1, a) != K.Word(m0, a);
    }
  }

  // The word before a small block is none of those the loader writes.
  lemma LoadSpares(was: Ledger, m0: map<nat, nat>, m1: map<nat, nat>, raw: nat, n: nat, p: nat)
    requires Partitioned(was) && SmallsApart(was) && p in was.smalls && p >= HDR && LoadWrites(was, m0, m1, raw, n)
    ensures K.Word(m1, p - HDR) == K.Word(m0, p - HDR)
  {
    hide K.BigPages, InBig, BigFits, K.Word, RunOf, AlignUp, AlignDown;
    var q := AlignDown(p);
    assert SmallFits(was, p) && q in was.bump && q !in Idle(was);
    if raw != 0 {
      var run := K.BigPages(n + PAGE);
      InRun(raw - HDR, run, q);
      WordInRun(raw, n, raw - HDR + run * PAGE, p);
      if AlignDown(p - HDR) != q {
        K.FarInPage(p);
      }
    }
  }

  // A word of the image's place, and the word a header's length on, lie in pages of the block.
  lemma WordInRun(raw: nat, n: nat, end: nat, p: nat)
    requires AlignUp(raw) + n + HDR <= end && p >= HDR && raw >= HDR
    ensures AlignUp(raw) <= p - HDR < AlignUp(raw) + n ==> raw - HDR <= AlignDown(p) < end
  {
  }

  lemma InRun(b: nat, n: nat, q: nat)
    requires b % PAGE == 0 && q % PAGE == 0
    ensures b <= q < b + n * PAGE ==> q in RunOf(b, n)
  {
  }

  lemma ImageIsLive(l: Ledger, raw: nat, n: nat)
    requires ImagePlace(l, raw, n) && n + 3 * PAGE < U64
    ensures var k := Block(raw, K.BigPages(n + PAGE) * PAGE - HDR);
      && Live(TakeBig(l, raw - HDR, K.BigPages(n + PAGE)), k) && AlignUp(raw) % 8 == 0
      && k.start <= AlignUp(raw) && AlignUp(raw) + n <= k.start + k.size
  {
    hide K.BigPages, Idle, RunOf, IdleRun, AlignUp;
    ImageHasPlace(l, raw, n);
    PagesAreWords(AlignUp(raw));
  }

  lemma PagesAreWords(x: nat)
    ensures x % PAGE == 0 ==> x % 8 == 0
  {
  }

  lemma SameSlice(img: ExecImage, block: seq<byte>, raw: nat, size: nat)
    requires img.raw == raw && img.size == size && img.base == AlignUp(raw) && AlignUp(raw) - raw + size <= |block|
    ensures ImageIn(img, block) == block[AlignUp(raw) - raw..AlignUp(raw) - raw + size]
  {
  }

  // The image as memory has it.
  method ToMemory(heap: K.Heap, bytes: seq<byte>, raw: nat, ghost l: Ledger, ghost mem: map<nat, nat>)
    requires heap.Valid() && ImagePlace(l, raw, |bytes|) && K.OnlyHeaders(l, mem, heap.mem)
    requires heap.led == TakeBig(l, raw - HDR, K.BigPages(|bytes| + PAGE)) && |bytes| + 3 * PAGE < U64
    modifies heap`mem
    ensures heap.Valid() && LoadWrites(l, mem, heap.mem, raw, |bytes|)
    ensures K.InMemory(heap.mem, AlignUp(raw), bytes)
  {
    hide K.BigPages, Idle, Partitioned, SmallsApart, K.BumpOk, K.Headers, FreeList, K.OnlyHeaders, K.HoldsBytes,
         K.InMemory, K.OnlyIn, LoadWrites, AlignUp, RunOf, Live, ImagePlace, TakeBig;
    ghost var mid := heap.mem;
    ImageIsLive(l, raw, |bytes|);
    heap.StoreBytes(AlignUp(raw), bytes, Block(raw, K.BigPages(|bytes| + PAGE) * PAGE - HDR));
    BothWrites(l, mem, mid, heap.mem, raw, |bytes|);
  }

  // The image in the block at `at`, and in memory.
  method FillBlock(heap: K.Heap, at: nat, file: seq<byte>, ps: seq<Phdr>, lo: nat, hi: nat, dyn: int,
                   ghost l: Ledger, ghost mem: map<nat, nat>)
    returns (rc: int, img: ExecImage, m: array<byte>, ghost plain: seq<byte>)
    requires heap.Valid() && Tame(file) && HeaderCode(file) == 0 && ps == Headers(file)
    requires InFile(Segs(ps), |file|) && Spans(Segs(ps), |ps|, lo, hi) && lo < hi && LastDynamic(ps, |ps|, dyn)
    requires ImagePlace(l, at, hi - lo) && K.OnlyHeaders(l, mem, heap.mem)
    requires heap.led == TakeBig(l, at - HDR, K.BigPages(hi - lo + PAGE)) && hi - lo + 3 * PAGE < U64
    modifies heap`mem
    ensures heap.Valid() && fresh(m) && LoadWrites(l, mem, heap.mem, at, hi - lo)
    ensures if rc == 0 then img.raw == at && img.size == hi - lo else img == NO_IMAGE
    ensures rc == 0 ==> IsLoaded(img, m[..], file, plain, lo, hi)
    ensures rc == 0 ==> K.InMemory(heap.mem, img.base, ImageIn(img, m[..]))
    ensures SomeSticksOut(Segs(ps), lo, hi) ==> rc == -22
    ensures !SomeSticksOut(Segs(ps), lo, hi) ==>
      IsPlain(plain, file, ps, lo, hi) && AfterOverlay(rc, plain, AlignUp(at), lo, hi, ps, EhdrOf(file).entry)
  {
    hide HeaderCode, Headers, Segs, Idle, Overlaid, K.BigPages, Partitioned, Spans, SticksOut, LastDynamic, SmallsApart,
         K.BumpOk, K.Headers, FreeList, IsPlain, AfterOverlay, SomeSticksOut, K.OnlyHeaders, K.InMemory, LoadWrites,
         LinkedImage, InFile, ImagePlace, AlignUp, IsLoaded, TakeBig;
    var size := hi - lo;
    m := new byte[size + PAGE];
    rc, img, plain := Fill(m, at, file, ps, lo, hi, size, dyn);
    var pad := AlignUp(at) - at;
    ToMemory(heap, m[..][pad..pad + size], at, l, mem);
    if rc == 0 {
      SameSlice(img, m[..], at, size);
    }
  }

  /** The loader from the allocation on. */
  method LoadInto(file: seq<byte>, heap: K.Heap, ps: seq<Phdr>, lo: nat, hi: nat, dyn: int)
    returns (rc: int, img: ExecImage, m: array<byte>, ghost plain: seq<byte>, ghost raw: nat)
    requires heap.Valid() && Tame(file) && HeaderCode(file) == 0 && ps == Headers(file)
    requires InFile(Segs(ps), |file|) && Spans(Segs(ps), |ps|, lo, hi) && lo < hi && LastDynamic(ps, |ps|, dyn)
    modifies heap`cur, heap`end, heap`mem, heap`led, heap.pmm`top, heap.pmm.slots
    ensures heap.Valid() && fresh(m)
    ensures OwnBlock(rc, img, old(heap.led), heap.led)
    ensures LoadWrites(old(heap.led), old(heap.mem), heap.mem, raw, hi - lo)
    ensures rc == 0 ==> img.raw == raw && IsLoaded(img, m[..], file, plain, lo, hi)
    ensures rc == 0 ==> K.InMemory(heap.mem, img.base, ImageIn(img, m[..]))
    ensures LateCode(rc, file, ps, lo, hi, Idle(old(heap.led)), raw)
  {
    hide HeaderCode, Headers, Segs, Idle, Overlaid, K.BigPages, K.HasRun, Partitioned, Spans, SticksOut,
         LastDynamic, SmallsApart, K.BumpOk, K.Headers, FreeList, IsPlain, AfterOverlay, SomeSticksOut, K.OnlyHeaders,
         K.HoldsBytes, K.InMemory, K.OnlyIn, LoadWrites, LinkedImage, InFile, K.SmallAt, K.Room, K.Freed, K.AddsNone,
         RunOf, ImagePlace, AlignUp, IsLoaded, Live;
    m := new byte[0];
    plain := [];
    var size := hi - lo;
    ghost var l, mem := heap.led, heap.mem;
    BlockSize(file, ps, lo, hi);
    var at := heap.Kmalloc(size + PAGE);
    raw := at;
    if at == 0 {
      NoWrites(l, mem, size);
      return -21, NO_IMAGE, m, plain, raw;
    }
    ImageHasPlace(l, at, size);
    rc, img, m, plain := FillBlock(heap, at, file, ps, lo, hi, dyn, l, mem);
    if rc != 0 {
      heap.Kfree(at);
      TakenBack(l, at - HDR, K.BigPages(size + PAGE));
    }
  }

  lemma NoWrites(l: Ledger, mem: map<nat, nat>, n: nat)
    ensures LoadWrites(l, mem, mem, 0, n)
  {
  }

  lemma BlockSize(file: seq<byte>, ps: seq<Phdr>, lo: nat, hi: nat)
    requires HeaderCode(file) == 0 && Tame(file) && ps == Headers(file)
    requires InFile(Segs(ps), |file|) && Spans(Segs(ps), |ps|, lo, hi) && lo < hi
    ensures K.SMALL_MAX < hi - lo + PAGE && hi - lo + 3 * PAGE < U64 && K.BigPages(hi - lo + PAGE) != 0
  {
    hide Segs, Spans;
    assert hi - lo + 3 * PAGE < U64;
    K.BigPagesFit(hi - lo + PAGE);
  }

  /**
   `exec_elf_load_pie`: on success the image is the overlay of the segments, linked at its
   base, inside a heap block of its own, and memory holds it; on failure the heap is as it was.
   Memory changes in the header of the block and in the image's place alone.
   */
  method LoadPie(file: seq<byte>, heap: K.Heap)
    returns (rc: int, img: ExecImage, m: array<byte>, ghost plain: seq<byte>, ghost lo: nat, ghost hi: nat,
             ghost raw: nat)
    requires heap.Valid() && Tame(file)
    modifies heap`cur, heap`end, heap`mem, heap`led, heap.pmm`top, heap.pmm.slots
    ensures heap.Valid() && fresh(m) && lo <= hi
    ensures OwnBlock(rc, img, old(heap.led), heap.led)
    ensures LoadWrites(old(heap.led), old(heap.mem), heap.mem, raw, hi - lo)
    ensures rc == 0 ==> img.raw == raw && IsLoaded(img, m[..], file, plain, lo, hi)
    ensures rc == 0 ==> K.InMemory(heap.mem, img.base, ImageIn(img, m[..]))
    ensures CodeMeans(rc, file, lo, hi, Idle(old(heap.led)), raw)
  {
    hide HeaderCode, Headers, Segs, Idle, OutOfFile, Spans, LateCode, LastDynamic, AllSane, NoneSized, InFile,
         Partitioned, SmallsApart, K.BumpOk, K.Headers, FreeList, K.InMemory, LoadWrites, IsPlain, LinkedImage;
    NoWrites(heap.led, heap.mem, 0);
    m := new byte[0];
    img, plain, lo, hi, raw := NO_IMAGE, [], 0, 0, 0;
    rc := HeaderCode(file);
    if rc != 0 {
      return;
    }
    var ps := Headers(file);
    var low, high, dyn;
    rc, low, high, dyn := Measure(ps, |file|);
    if rc != 0 {
      return;
    }
    lo, hi := low, high;
    rc, img, m, plain, raw := LoadInto(file, heap, ps, low, high, dyn);
  }

  // ----- two loads of one file -----

  // With the dynamic header d, images of one overlay differ at the targets of its table at most.
  ghost predicate AlikeBut(plain: seq<byte>, m1: seq<byte>, m2: seq<byte>, b1: nat, b2: nat, lo: nat, d: Phdr)
    requires |m1| == |m2| == |plain|
  {
    && ((forall off, n :: !TableAt(plain, lo, d.vaddr, d.memsz, off, n)) ==> m1 == m2)
    && (forall off, n :: TableAt(plain, lo, d.vaddr, d.memsz, off, n) && MissTable(plain, lo, off, n) ==>
          SameButTargets(plain, m1, m2, b1, b2, lo, off, n))
  }

  // ... and without one they are the same.
  ghost predicate Alike(plain: seq<byte>, m1: seq<byte>, m2: seq<byte>, b1: nat, b2: nat, lo: nat, ps: seq<Phdr>) {
    && |m1| == |m2| == |plain|
    && forall d :: LastDynamic(ps, |ps|, d) ==> if d < 0 then m1 == m2 else AlikeBut(plain, m1, m2, b1, b2, lo, ps[d])
  }

  /**
   Two successful loads of one file, wherever their blocks lie: the same span and overlay, the
   entry at the same place, and images that differ at the targets of relocations only, by the
   distance of their bases.
   */
  lemma TwoLoads(file: seq<byte>, i1: ExecImage, k1: seq<byte>, p1: seq<byte>, lo1: nat, hi1: nat,
                 i2: ExecImage, k2: seq<byte>, p2: seq<byte>, lo2: nat, hi2: nat)
    requires IsLoaded(i1, k1, file, p1, lo1, hi1) && IsLoaded(i2, k2, file, p2, lo2, hi2)
    ensures lo1 == lo2 && hi1 == hi2 && p1 == p2 && i1.size == i2.size && i1.entry - i1.base == i2.entry - i2.base
    ensures Alike(p1, ImageIn(i1, k1), ImageIn(i2, k2), i1.base, i2.base, lo1, Headers(file))
  {
    hide Linked, HeaderCode, Headers, Segs, Overlaid, LinkedImage, Alike;
    var ps := Headers(file);
    OneSpan(Segs(ps), lo1, hi1, lo2, hi2);
    forall x | 0 <= x < |p1|
      ensures p1[x] == p2[x]
    {
      OverlayIsUnique(p1, lo1, p2, lo2, file, Segs(ps), x, x);
    }
    assert p1 == p2;
    BothLinked(p1, ImageIn(i1, k1), ImageIn(i2, k2), i1.base, i2.base, lo1, ps);
  }

  lemma OneSpan(gs: seq<Seg>, lo1: nat, hi1: nat, lo2: nat, hi2: nat)
    requires Spans(gs, |gs|, lo1, hi1) && Spans(gs, |gs|, lo2, hi2)
    ensures lo1 == lo2 && hi1 == hi2
  {
  }

  lemma BothLinked(plain: seq<byte>, m1: seq<byte>, m2: seq<byte>, b1: nat, b2: nat, lo: nat, ps: seq<Phdr>)
    requires LinkedImage(plain, m1, b1, lo, ps) && LinkedImage(plain, m2, b2, lo, ps)
    ensures Alike(plain, m1, m2, b1, b2, lo, ps)
  {
    hide Linked, TableAt, MissTable, SameButTargets, LastDynamic;
    forall d | LastDynamic(ps, |ps|, d)
      ensures -1 <= d < |ps| && if d < 0 then m1 == m2 else AlikeBut(plain, m1, m2, b1, b2, lo, ps[d])
    {
      DynamicInside(ps, d);
      if d >= 0 {
        LinkedTwice(plain, b1, b2, lo, ps[d].vaddr, ps[d].memsz);
      }
    }
  }

  lemma DynamicInside(ps: seq<Phdr>, d: int)
    requires LastDynamic(ps, |ps|, d)
    ensures -1 <= d < |ps|
  {
  }
}
