/** ELF64 files: headers, and what loading one means. */
module Elf {
  import opened Bytes

  const EHDR := 64
  const PHDR := 56
  const PT_LOAD := 1
  const PT_DYNAMIC := 2

  // ----- file and program headers -----

  /** The fields of the file header that the loaders look at. */
  datatype Ehdr = Ehdr(kind: nat, machine: nat, entry: nat, phoff: nat, phentsize: nat, phnum: nat)

  function EhdrOf(file: seq<byte>): Ehdr
    requires |file| >= EHDR
  {
    Ehdr(Rd(file, 16, 2), Rd(file, 18, 2), Rd64(file, 24), Rd64(file, 32), Rd(file, 54, 2), Rd(file, 56, 2))
  }

  datatype Phdr = Phdr(kind: nat, offset: nat, vaddr: nat, paddr: nat, filesz: nat, memsz: nat)

  function PhdrOf(file: seq<byte>, at: nat): Phdr
    requires at + PHDR <= |file|
  {
    Phdr(Rd(file, at, 4), Rd64(file, at + 8), Rd64(file, at + 16), Rd64(file, at + 24), Rd64(file, at + 32),
         Rd64(file, at + 40))
  }

  function Phdrs(file: seq<byte>, phoff: nat, n: nat): (r: seq<Phdr>)
    requires phoff + n * PHDR <= |file|
    ensures |r| == n
  {
    seq(n, i requires 0 <= i < n => PhdrOf(file, phoff + i * PHDR))
  }

  // ----- the layout of the headers -----

  /** All fields of a file header, in their order. */
  datatype RawEhdr = RawEhdr(ident: seq<byte>, kind: u16, machine: u16, version: u32, entry: u64, phoff: u64,
                             shoff: u64, flags: u32, ehsize: u16, phentsize: u16, phnum: u16, shentsize: u16,
                             shnum: u16, shstrndx: u16)

  function EhdrBytes(h: RawEhdr): seq<byte> {
    h.ident + ToBytes(h.kind, 2) + ToBytes(h.machine, 2) + ToBytes(h.version, 4)
    + ToBytes(h.entry, 8) + ToBytes(h.phoff, 8) + ToBytes(h.shoff, 8)
    + ToBytes(h.flags, 4) + ToBytes(h.ehsize, 2) + ToBytes(h.phentsize, 2) + ToBytes(h.phnum, 2)
    + ToBytes(h.shentsize, 2) + ToBytes(h.shnum, 2) + ToBytes(h.shstrndx, 2)
  }

  /** Every file header, its fields one after another and little-endian, is read as what it says. */
  lemma EhdrLayout(file: seq<byte>, h: RawEhdr)
    requires |h.ident| == 16 && EhdrBytes(h) <= file
    ensures |EhdrBytes(h)| == EHDR && file[..16] == h.ident
    ensures EhdrOf(file) == Ehdr(h.kind, h.machine, h.entry, h.phoff, h.phentsize, h.phnum)
  {
    hide ToBytes, FromBytes;
    var rec := EhdrBytes(h);
    Pow256Values();
    assert file[0..0 + |rec|] == rec;
    FieldReads(file, 0, rec, 16, 2, h.kind);
    FieldReads(file, 0, rec, 18, 2, h.machine);
    FieldReads(file, 0, rec, 24, 8, h.entry);
    FieldReads(file, 0, rec, 32, 8, h.phoff);
    FieldReads(file, 0, rec, 54, 2, h.phentsize);
    FieldReads(file, 0, rec, 56, 2, h.phnum);
  }

  /** All fields of a program header, in their order. */
  datatype RawPhdr = RawPhdr(kind: u32, flags: u32, offset: u64, vaddr: u64, paddr: u64, filesz: u64, memsz: u64,
                             align: u64)

  function PhdrBytes(p: RawPhdr): seq<byte> {
    ToBytes(p.kind, 4) + ToBytes(p.flags, 4) + ToBytes(p.offset, 8) + ToBytes(p.vaddr, 8) + ToBytes(p.paddr, 8)
    + ToBytes(p.filesz, 8) + ToBytes(p.memsz, 8) + ToBytes(p.align, 8)
  }

  /** So is every program header, wherever in the file it lies. */
  lemma PhdrLayout(file: seq<byte>, at: nat, p: RawPhdr)
    requires at + PHDR <= |file| && file[at..at + PHDR] == PhdrBytes(p)
    ensures PhdrOf(file, at) == Phdr(p.kind, p.offset, p.vaddr, p.paddr, p.filesz, p.memsz)
  {
    hide ToBytes, FromBytes;
    var rec := PhdrBytes(p);
    Pow256Values();
    FieldReads(file, at, rec, 0, 4, p.kind);
    FieldReads(file, at, rec, 8, 8, p.offset);
    FieldReads(file, at, rec, 16, 8, p.vaddr);
    FieldReads(file, at, rec, 24, 8, p.paddr);
    FieldReads(file, at, rec, 32, 8, p.filesz);
    FieldReads(file, at, rec, 40, 8, p.memsz);
  }

  // The table of program headers lies at that place.
  ghost predicate PhdrsAt(file: seq<byte>, at: nat, ps: seq<RawPhdr>) {
    forall i :: 0 <= i < |ps| ==>
      at + i * PHDR + PHDR <= |file| && file[at + i * PHDR..at + i * PHDR + PHDR] == PhdrBytes(ps[i])
  }

  // ----- segments and what they put where -----

  /** A segment to load: where it goes, where its file bytes are, and how many bytes it has. */
  datatype Seg = Seg(load: bool, at: nat, offset: nat, filesz: nat, memsz: nat)

  // No sum over a segment wraps, and one without memory has no bytes in the file.
  predicate Sane(g: Seg) {
    g.load ==>
      g.at + g.memsz < U64 && g.at + g.filesz < U64 && g.offset + g.filesz < U64 && (g.memsz == 0 ==> g.filesz == 0)
  }

  ghost predicate AllSane(gs: seq<Seg>) {
    forall i :: 0 <= i < |gs| ==> Sane(gs[i])
  }

  predicate Sized(g: Seg) {
    g.load && g.memsz > 0
  }

  // Segment g puts a file byte at address a.
  predicate Covers(g: Seg, a: nat) {
    g.load && g.at <= a < g.at + g.filesz
  }

  ghost predicate InFile(gs: seq<Seg>, size: nat) {
    forall i :: 0 <= i < |gs| && gs[i].load && gs[i].filesz > 0 ==> gs[i].offset + gs[i].filesz <= size
  }

  // Segment i is the last of the first n to put a file byte at a.
  ghost predicate LastAt(gs: seq<Seg>, n: nat, a: nat, i: nat)
    requires n <= |gs|
  {
    i < n && Covers(gs[i], a) && forall j :: i < j < n ==> !Covers(gs[j], a)
  }

  ghost predicate Bare(gs: seq<Seg>, n: nat, a: nat)
    requires n <= |gs|
  {
    forall j :: 0 <= j < n ==> !Covers(gs[j], a)
  }

  /** Byte b at address a: the file byte of the last segment covering a with file data, else 0. */
  ghost predicate ByteOk(b: byte, file: seq<byte>, gs: seq<Seg>, n: nat, a: nat)
    requires n <= |gs| && InFile(gs, |file|)
  {
    && (Bare(gs, n, a) ==> b == 0)
    && (forall i: nat :: LastAt(gs, n, a, i) ==> b == file[gs[i].offset + (a - gs[i].at)])
  }

  /** Memory from address lo on holds the overlay of the first n segments. */
  ghost predicate Overlaid(m: seq<byte>, lo: nat, file: seq<byte>, gs: seq<Seg>, n: nat)
    requires n <= |gs| && InFile(gs, |file|)
  {
    forall x :: 0 <= x < |m| ==> ByteOk(m[x], file, gs, n, lo + x)
  }

  lemma {:induction false} SomeLast(gs: seq<Seg>, n: nat, a: nat) returns (i: nat)
    requires n <= |gs| && !Bare(gs, n, a)
    ensures LastAt(gs, n, a, i)
  {
    if Covers(gs[n - 1], a) {
      i := n - 1;
    } else {
      i := SomeLast(gs, n - 1, a);
    }
  }

  /** The overlay fixes every byte: two loads agree wherever their ranges meet. */
  lemma OverlayIsUnique(m: seq<byte>, lo: nat, m': seq<byte>, lo': nat, file: seq<byte>, gs: seq<Seg>, x: nat, y: nat)
    requires InFile(gs, |file|) && Overlaid(m, lo, file, gs, |gs|) && Overlaid(m', lo', file, gs, |gs|)
    requires x < |m| && y < |m'| && lo + x == lo' + y
    ensures m[x] == m'[y]
  {
    var a := lo + x;
    assert ByteOk(m[x], file, gs, |gs|, a) && ByteOk(m'[y], file, gs, |gs|, a);
    if !Bare(gs, |gs|, a) {
      var i := SomeLast(gs, |gs|, a);
    }
  }

  // ----- the two passes -----

  // lo and hi bound the segments with memory among the first n, and both are reached.
  ghost predicate Spans(gs: seq<Seg>, n: nat, lo: nat, hi: nat)
    requires n <= |gs|
  {
    && (forall i :: 0 <= i < n && Sized(gs[i]) ==> lo <= gs[i].at && gs[i].at + gs[i].memsz <= hi)
    && (exists i :: 0 <= i < n && Sized(gs[i]) && gs[i].at == lo)
    && (exists i :: 0 <= i < n && Sized(gs[i]) && gs[i].at + gs[i].memsz == hi)
  }

  ghost predicate NoneSized(gs: seq<Seg>, n: nat)
    requires n <= |gs|
  {
    forall i :: 0 <= i < n ==> !Sized(gs[i])
  }

  // The span, one more segment in.
  lemma SpansMore(gs: seq<Seg>, i: nat, none: bool, lo: nat, hi: nat)
    requires i < |gs| && gs[i].at + gs[i].memsz < U64 && Sized(gs[i]) && (none <==> NoneSized(gs, i))
    requires if none then lo == U64 - 1 && hi == 0 else lo < hi && Spans(gs, i, lo, hi)
    ensures var g := gs[i];
      var lo' := if g.at < lo then g.at else lo;
      var hi' := if g.at + g.memsz > hi then g.at + g.memsz else hi;
      lo' < hi' && Spans(gs, i + 1, lo', hi') && !NoneSized(gs, i + 1)
  {
    var g := gs[i];
    var lo' := if g.at < lo then g.at else lo;
    var hi' := if g.at + g.memsz > hi then g.at + g.memsz else hi;
    if !none {
      var a :| 0 <= a < i && Sized(gs[a]) && gs[a].at == lo;
      var b :| 0 <= b < i && Sized(gs[b]) && gs[b].at + gs[b].memsz == hi;
      assert lo' == lo ==> 0 <= a < i + 1 && gs[a].at == lo';
      assert hi' == hi ==> 0 <= b < i + 1 && gs[b].at + gs[b].memsz == hi';
    }
    assert lo' == g.at ==> gs[i].at == lo';
    assert hi' == g.at + g.memsz ==> gs[i].at + gs[i].memsz == hi';
  }

  lemma SpansSame(gs: seq<Seg>, i: nat, none: bool, lo: nat, hi: nat)
    requires i < |gs| && !Sized(gs[i]) && (none <==> NoneSized(gs, i))
    requires !none ==> Spans(gs, i, lo, hi)
    ensures none <==> NoneSized(gs, i + 1)
    ensures !none ==> Spans(gs, i + 1, lo, hi)
  {
    if !none {
      var a :| 0 <= a < i && Sized(gs[a]) && gs[a].at == lo;
      var b :| 0 <= b < i && Sized(gs[b]) && gs[b].at + gs[b].memsz == hi;
      assert 0 <= a < i + 1 && 0 <= b < i + 1;
    }
  }

  // One more segment, seen from one address.
  lemma ByteStep(b: byte, b': byte, file: seq<byte>, gs: seq<Seg>, n: nat, a: nat)
    requires n < |gs| && InFile(gs, |file|) && ByteOk(b, file, gs, n, a)
    requires b' == if Covers(gs[n], a) then file[gs[n].offset + (a - gs[n].at)] else b
    ensures ByteOk(b', file, gs, n + 1, a)
  {
    forall i: nat | LastAt(gs, n + 1, a, i)
      ensures b' == file[gs[i].offset + (a - gs[i].at)]
    {
      assert i < n ==> !Covers(gs[n], a) && LastAt(gs, n, a, i);
    }
    assert Bare(gs, n + 1, a) ==> !Covers(gs[n], a) && Bare(gs, n, a);
  }

  // One segment's file bytes, put over what memory holds.
  lemma OverlayStep(m: seq<byte>, m': seq<byte>, lo: nat, file: seq<byte>, gs: seq<Seg>, n: nat)
    requires n < |gs| && InFile(gs, |file|) && Overlaid(m, lo, file, gs, n) && |m'| == |m|
    requires forall x :: 0 <= x < |m| ==>
      m'[x] == if Covers(gs[n], lo + x) then file[gs[n].offset + (lo + x - gs[n].at)] else m[x]
    ensures Overlaid(m', lo, file, gs, n + 1)
  {
    hide ByteOk;
    forall x | 0 <= x < |m|
      ensures ByteOk(m'[x], file, gs, n + 1, lo + x)
    {
      ByteStep(m[x], m'[x], file, gs, n, lo + x);
    }
  }

  /** Copying a segment's file bytes to its place; nothing outside the segment changes. */
  method CopySegment(m: array<byte>, base: nat, size: nat, lo: nat, file: seq<byte>, ghost gs: seq<Seg>, ghost n: nat,
                     g: Seg)
    requires base + size <= m.Length && n < |gs| && gs[n] == g && g.load && InFile(gs, |file|)
    requires g.filesz > 0 && lo <= g.at && g.at - lo + g.filesz <= size
    requires Overlaid(m[base..base + size], lo, file, gs, n)
    modifies m
    ensures Overlaid(m[base..base + size], lo, file, gs, n + 1)
    ensures forall x :: 0 <= x < m.Length && !(base <= x < base + size) ==> m[x] == old(m[x])
  {
    hide Overlaid;
    var dst := base + (g.at - lo);
    assert g.offset + g.filesz <= |file|;
    for k := 0 to g.filesz
      invariant forall x :: 0 <= x < m.Length && !(dst <= x < dst + k) ==> m[x] == old(m[x])
      invariant forall x :: dst <= x < dst + k ==> m[x] == file[g.offset + (x - dst)]
    {
      m[dst + k] := file[g.offset + k];
    }
    ghost var was, now := old(m[base..base + size]), m[base..base + size];
    forall x | 0 <= x < size
      ensures now[x] == if Covers(g, lo + x) then file[g.offset + (lo + x - g.at)] else was[x]
    {
      assert now[x] == m[base + x] && was[x] == old(m[base + x]);
    }
    OverlayStep(was, now, lo, file, gs, n);
  }

  /** Memory of zeros is the overlay of no segments. */
  lemma ZerosAreBare(m: seq<byte>, lo: nat, file: seq<byte>, gs: seq<Seg>)
    requires InFile(gs, |file|) && forall x :: 0 <= x < |m| ==> m[x] == 0
    ensures Overlaid(m, lo, file, gs, 0)
  {
    forall x | 0 <= x < |m|
      ensures ByteOk(m[x], file, gs, 0, lo + x)
    {
    }
  }

  // A segment that copies nothing.
  lemma OverlaySkip(m: seq<byte>, lo: nat, file: seq<byte>, gs: seq<Seg>, n: nat)
    requires n < |gs| && InFile(gs, |file|) && Overlaid(m, lo, file, gs, n) && (!gs[n].load || gs[n].filesz == 0)
    ensures Overlaid(m, lo, file, gs, n + 1)
  {
    OverlayStep(m, m, lo, file, gs, n);
  }
}
