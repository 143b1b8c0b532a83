/** The dynamic section and the relocations of a loaded image. */
module Reloc {
  import opened Bytes

  const DT_NULL := 0
  const DT_RELA := 7
  const DT_RELASZ := 8
  const DT_RELAENT := 9
  const DYN := 16
  const RELA := 24
  const R_RELATIVE := 8

  // Subtraction of 64-bit words.
  function Sub64(a: nat, b: nat): (r: nat)
    ensures r < U64
  {
    (a - b) % U64
  }

  /**
   What becomes of an image: its bytes, a refusal with the loader's code, or a run that
   leaves the image (a sum that wraps, or a dynamic section that is never closed).
   */
  datatype Linking = Image(bytes: seq<byte>) | Refused(rc: int) | Astray

  // ----- the dynamic section -----

  function TagAt(m: seq<byte>, at: nat, k: nat): nat
    requires at + k * DYN + DYN <= |m|
  {
    Rd64(m, at + k * DYN)
  }

  function ValAt(m: seq<byte>, at: nat, k: nat): nat
    requires at + k * DYN + DYN <= |m|
  {
    Rd64(m, at + k * DYN + 8)
  }

  // The place of the closing entry, or nothing before the image ends.
  function DynCount(m: seq<byte>, at: nat, k: nat): (n: int)
    ensures n == -1 || (n >= k && at + n * DYN + DYN <= |m|)
    ensures n >= 0 ==> TagAt(m, at, n) == DT_NULL && forall j :: k <= j < n ==> TagAt(m, at, j) != DT_NULL
    decreases |m| - k
  {
    if at + k * DYN + DYN > |m| then -1
    else if TagAt(m, at, k) == DT_NULL then k
    else DynCount(m, at, k + 1)
  }

  // The value of the last entry with that tag among the first n.
  function LastVal(m: seq<byte>, at: nat, n: nat, tag: nat, dflt: nat): nat
    requires at + n * DYN <= |m|
  {
    if n == 0 then dflt
    else if TagAt(m, at, n - 1) == tag then ValAt(m, at, n - 1)
    else LastVal(m, at, n - 1, tag, dflt)
  }

  // ----- the relocations -----

  /** An entry of the table, as the image holds it. */
  datatype Rela = Rela(offset: nat, kind: nat, addend: nat)

  function RelaAt(m: seq<byte>, at: nat): Rela
    requires at + RELA <= |m|
  {
    Rela(Rd64(m, at), Rd64(m, at + 8) % U32, Rd64(m, at + 16))
  }

  /** The fields of an entry of the table; the symbol is not used. */
  datatype RawRela = RawRela(offset: u64, symbol: u32, kind: u32, addend: u64)

  function RelaBytes(r: RawRela): seq<byte> {
    ToBytes(r.offset, 8) + ToBytes(r.symbol * U32 + r.kind, 8) + ToBytes(r.addend, 8)
  }

  /** Every entry, its fields one after another and little-endian, is read as what it says. */
  lemma RelaLayout(m: seq<byte>, at: nat, r: RawRela)
    requires at + RELA <= |m| && m[at..at + RELA] == RelaBytes(r)
    ensures RelaAt(m, at) == Rela(r.offset, r.kind, r.addend)
  {
    hide ToBytes, FromBytes;
    var rec := RelaBytes(r);
    Pow256Values();
    FieldReads(m, at, rec, 0, 8, r.offset);
    FieldReads(m, at, rec, 8, 8, r.symbol * U32 + r.kind);
    FieldReads(m, at, rec, 16, 8, r.addend);
  }

  /** So is every entry of the dynamic section. */
  lemma DynLayout(m: seq<byte>, at: nat, k: nat, tag: u64, val: u64)
    requires at + k * DYN + DYN <= |m| && m[at + k * DYN..at + k * DYN + DYN] == ToBytes(tag, 8) + ToBytes(val, 8)
    ensures TagAt(m, at, k) == tag && ValAt(m, at, k) == val
  {
    hide ToBytes, FromBytes;
    var rec := ToBytes(tag, 8) + ToBytes(val, 8);
    Pow256Values();
    FieldReads(m, at + k * DYN, rec, 0, 8, tag);
    FieldReads(m, at + k * DYN, rec, 8, 8, val);
  }

  function Apply(m: seq<byte>, base: nat, lo: nat, r: Rela): (l: Linking)
    ensures l.Image? ==> |l.bytes| == |m|
  {
    if r.kind != R_RELATIVE then Image(m)
    else
      var t := Sub64(r.offset, lo);
      if (t + 8) % U64 > |m| then Refused(-26)
      else if t + 8 > |m| then Astray
      else Image(Wr64(m, t, (base + r.addend) % U64))
  }

  // The first n entries of the table at off, each read from the image as it then is.
  function Relocated(m: seq<byte>, base: nat, lo: nat, off: nat, n: nat): (l: Linking)
    requires off + n * RELA <= |m|
    ensures l.Image? ==> |l.bytes| == |m|
  {
    if n == 0 then Image(m)
    else
      var l := Relocated(m, base, lo, off, n - 1);
      if l.Image? then Apply(l.bytes, base, lo, RelaAt(l.bytes, off + (n - 1) * RELA)) else l
  }

  /** Everything the loader does because of the dynamic header at address `va`. */
  function Linked(m: seq<byte>, base: nat, lo: nat, va: nat, memsz: nat): (l: Linking)
    ensures l.Image? ==> |l.bytes| == |m|
  {
    var at := Sub64(va, lo);
    if (at + memsz) % U64 > |m| then Refused(-23)
    else if at + memsz > |m| then Astray
    else
      var n := DynCount(m, at, 0);
      if n == -1 then Astray
      else
        var relaV := LastVal(m, at, n, DT_RELA, 0);
        var relaSz := LastVal(m, at, n, DT_RELASZ, 0);
        if relaV == 0 || relaSz == 0 then Image(m)
        else if LastVal(m, at, n, DT_RELAENT, RELA) != RELA then Refused(-24)
        else
          var off := Sub64(relaV, lo);
          if (off + relaSz) % U64 > |m| then Refused(-25)
          else if off + relaSz > |m| then Astray
          else Relocated(m, base, lo, off, relaSz / RELA)
  }

  // ----- one relocation, byte for byte -----

  function DynBytes(tag: u64, val: u64): seq<byte> { ToBytes(tag, 8) + ToBytes(val, 8) }

  // A dynamic section at the start of an image from address lo on, and its table of one entry.
  function OneEntry(lo: nat, r: RawRela, word: seq<byte>): seq<byte>
    requires lo + 96 < U64
  {
    DynBytes(7, lo + 64) + DynBytes(8, 24) + DynBytes(9, 24) + DynBytes(0, 0) + RelaBytes(r) + word
  }

  lemma OneEntryDyn(m: seq<byte>, lo: nat, r: RawRela, word: seq<byte>)
    requires lo + 96 < U64 && |word| == 8 && m == OneEntry(lo, r, word)
    ensures |m| == 96 && DynCount(m, 0, 0) == 3 && m[64..88] == RelaBytes(r)
    ensures LastVal(m, 0, 3, DT_RELA, 0) == lo + 64 && LastVal(m, 0, 3, DT_RELASZ, 0) == 24
    ensures LastVal(m, 0, 3, DT_RELAENT, RELA) == 24
  {
    hide ToBytes, FromBytes, TagAt, ValAt, RelaBytes;
    assert |RelaBytes(r)| == 24 by { RelaSize(r); }
    DynLayout(m, 0, 0, 7, lo + 64);
    DynLayout(m, 0, 1, 8, 24);
    DynLayout(m, 0, 2, 9, 24);
    DynLayout(m, 0, 3, 0, 0);
    assert DynCount(m, 0, 3) == 3 && DynCount(m, 0, 2) == 3 && DynCount(m, 0, 1) == 3;
    assert LastVal(m, 0, 1, 7, 0) == lo + 64 && LastVal(m, 0, 2, 7, 0) == lo + 64;
    assert LastVal(m, 0, 2, 8, 0) == 24;
  }

  lemma RelaSize(r: RawRela)
    ensures |RelaBytes(r)| == 24
  {
  }

  /**
   Such an image, loaded at `base`: an entry of type 8 makes the eight bytes it points to the
   base plus the addend, and no other byte changes; one of any other type changes nothing.
   */
  lemma OneRelocation(lo: nat, base: nat, r: RawRela, word: seq<byte>)
    requires lo + 96 < U64 && |word| == 8 && r.offset == lo + 88
    ensures var m := OneEntry(lo, r, word);
      |m| == 96 && Linked(m, base, lo, lo, 64)
        == Image(if r.kind == 8 then m[..88] + ToBytes((base + r.addend) % U64, 8) else m)
  {
    hide ToBytes, FromBytes, TagAt, ValAt, RelaBytes, OneEntry, DynCount, LastVal;
    var m := OneEntry(lo, r, word);
    OneEntryDyn(m, lo, r, word);
    RelaLayout(m, 64, r);
    assert Sub64(lo, lo) == 0 && Sub64(lo + 64, lo) == 64 && Sub64(lo + 88, lo) == 88;
    assert Relocated(m, base, lo, 64, 0) == Image(m);
    assert Relocated(m, base, lo, 64, 1) == Apply(m, base, lo, Rela(r.offset, r.kind, r.addend));
    assert m[96..] == [];
  }

  // ----- position independence -----

  // Entry i of the table as it is before any relocation, and where it points.
  function Entry(m: seq<byte>, off: nat, i: nat): Rela
    requires off + i * RELA + RELA <= |m|
  {
    RelaAt(m, off + i * RELA)
  }

  predicate Hits(m: seq<byte>, lo: nat, off: nat, i: nat, x: nat)
    requires off + i * RELA + RELA <= |m|
  {
    Entry(m, off, i).kind == R_RELATIVE
      && Sub64(Entry(m, off, i).offset, lo) <= x < Sub64(Entry(m, off, i).offset, lo) + 8
  }

  // No target reaches into the table of n entries.
  ghost predicate MissTable(m: seq<byte>, lo: nat, off: nat, n: nat)
    requires off + n * RELA <= |m|
  {
    forall i, x :: 0 <= i < n && off <= x < off + n * RELA ==> !Hits(m, lo, off, i, x)
  }

  lemma SameEntry(m: seq<byte>, m': seq<byte>, at: nat)
    requires at + RELA <= |m| && |m'| == |m| && forall x :: at <= x < at + RELA ==> m'[x] == m[x]
    ensures RelaAt(m', at) == RelaAt(m, at)
  {
    assert m'[at..at + 8] == m[at..at + 8];
    assert m'[at + 8..at + 16] == m[at + 8..at + 16];
    assert m'[at + 16..at + 24] == m[at + 16..at + 24];
  }

  /** When targets miss the table, relocation changes no byte but those of its targets. */
  lemma {:induction false} OnlyTargets(m: seq<byte>, base: nat, lo: nat, off: nat, n: nat, k: nat)
    requires k <= n && off + n * RELA <= |m| && MissTable(m, lo, off, n) && Relocated(m, base, lo, off, k).Image?
    ensures forall x :: 0 <= x < |m| && (forall i :: 0 <= i < k ==> !Hits(m, lo, off, i, x)) ==>
      Relocated(m, base, lo, off, k).bytes[x] == m[x]
    ensures forall x :: off <= x < off + n * RELA ==> Relocated(m, base, lo, off, k).bytes[x] == m[x]
  {
    hide Wr64, RelaAt;
    if k > 0 {
      OnlyTargets(m, base, lo, off, n, k - 1);
      var p := Relocated(m, base, lo, off, k - 1).bytes;
      SameEntry(m, p, off + (k - 1) * RELA);
      var q := Relocated(m, base, lo, off, k).bytes;
      assert forall x :: 0 <= x < |m| && !Hits(m, lo, off, k - 1, x) ==> q[x] == p[x];
    }
  }

  // One more entry, named as the unrelocated image has it.
  lemma OneMore(m: seq<byte>, base: nat, lo: nat, off: nat, n: nat, k: nat)
    requires k < n && off + n * RELA <= |m| && MissTable(m, lo, off, n) && Relocated(m, base, lo, off, k).Image?
    ensures Relocated(m, base, lo, off, k + 1)
      == Apply(Relocated(m, base, lo, off, k).bytes, base, lo, Entry(m, off, k))
  {
    hide Apply, RelaAt, MissTable, Hits;
    OnlyTargets(m, base, lo, off, n, k);
    SameEntry(m, Relocated(m, base, lo, off, k).bytes, off + k * RELA);
  }

  // Target i, untouched by entries i + 1 .. k, holds base plus addend.
  lemma {:induction false} TargetHolds(m: seq<byte>, base: nat, lo: nat, off: nat, n: nat, k: nat, i: nat)
    requires i < k <= n && off + n * RELA <= |m| && MissTable(m, lo, off, n) && Relocated(m, base, lo, off, k).Image?
    requires Entry(m, off, i).kind == R_RELATIVE
    requires var t := Sub64(Entry(m, off, i).offset, lo);
      forall j, x :: i < j < k && t <= x < t + 8 ==> !Hits(m, lo, off, j, x)
    ensures var t := Sub64(Entry(m, off, i).offset, lo);
      t + 8 <= |m| && Rd64(Relocated(m, base, lo, off, k).bytes, t) == (base + Entry(m, off, i).addend) % U64
    decreases k
  {
    hide Wr64, RelaAt, Relocated, Rd64;
    assert Relocated(m, base, lo, off, k - 1).Image? by { PrefixIsImage(m, base, lo, off, k); }
    OneMore(m, base, lo, off, n, k - 1);
    var t := Sub64(Entry(m, off, i).offset, lo);
    var p := Relocated(m, base, lo, off, k - 1).bytes;
    if i == k - 1 {
      Wr64Reads(p, t, (base + Entry(m, off, i).addend) % U64);
    } else {
      TargetHolds(m, base, lo, off, n, k - 1, i);
      var q := Relocated(m, base, lo, off, k).bytes;
      var j := k - 1;
      forall x | t <= x < t + 8
        ensures q[x] == p[x]
      {
        assert !Hits(m, lo, off, j, x);
      }
      SameWord(p, q, t);
    }
  }

  lemma PrefixIsImage(m: seq<byte>, base: nat, lo: nat, off: nat, k: nat)
    requires k > 0 && off + k * RELA <= |m| && Relocated(m, base, lo, off, k).Image?
    ensures Relocated(m, base, lo, off, k - 1).Image?
  {
  }

  lemma SameWord(p: seq<byte>, q: seq<byte>, t: nat)
    requires |p| == |q| && t + 8 <= |p| && forall x :: t <= x < t + 8 ==> q[x] == p[x]
    ensures Rd64(q, t) == Rd64(p, t)
  {
    assert q[t..t + 8] == p[t..t + 8];
  }

  // Whether relocation succeeds does not depend on the base.
  lemma {:induction false} SameOutcome(m: seq<byte>, b1: nat, b2: nat, lo: nat, off: nat, n: nat, k: nat)
    requires k <= n && off + n * RELA <= |m| && MissTable(m, lo, off, n)
    ensures var l1, l2 := Relocated(m, b1, lo, off, k), Relocated(m, b2, lo, off, k);
      (l1.Image? <==> l2.Image?) && (!l1.Image? ==> l1 == l2)
  {
    hide Wr64, RelaAt, Hits, MissTable;
    if k > 0 {
      SameOutcome(m, b1, b2, lo, off, n, k - 1);
      if Relocated(m, b1, lo, off, k - 1).Image? {
        OneMore(m, b1, lo, off, n, k - 1);
        OneMore(m, b2, lo, off, n, k - 1);
      }
    }
  }

  /**
   Loaded at two bases, an image whose targets miss the table comes out the same except at
   its targets; and a target no later entry writes over holds base plus addend in each, so
   the two words differ by the distance of the bases.
   */
  lemma PositionIndependent(m: seq<byte>, b1: nat, b2: nat, lo: nat, off: nat, n: nat)
    requires off + n * RELA <= |m| && MissTable(m, lo, off, n) && Relocated(m, b1, lo, off, n).Image?
    ensures Relocated(m, b2, lo, off, n).Image?
    ensures var m1, m2 := Relocated(m, b1, lo, off, n).bytes, Relocated(m, b2, lo, off, n).bytes;
      forall x :: 0 <= x < |m| && (forall i :: 0 <= i < n ==> !Hits(m, lo, off, i, x)) ==> m1[x] == m[x] == m2[x]
    ensures var m1, m2 := Relocated(m, b1, lo, off, n).bytes, Relocated(m, b2, lo, off, n).bytes;
      forall i :: 0 <= i < n && Settled(m, lo, off, n, i) ==> WordsApart(m, m1, m2, b1, b2, lo, off, i)
  {
    hide RelaAt, Rd64, Relocated, MissTable, Hits;
    SameOutcome(m, b1, b2, lo, off, n, n);
    OnlyTargets(m, b1, lo, off, n, n);
    OnlyTargets(m, b2, lo, off, n, n);
    var m1, m2 := Relocated(m, b1, lo, off, n).bytes, Relocated(m, b2, lo, off, n).bytes;
    forall i | 0 <= i < n && Settled(m, lo, off, n, i)
      ensures WordsApart(m, m1, m2, b1, b2, lo, off, i)
    {
      TargetHolds(m, b1, lo, off, n, n, i);
      TargetHolds(m, b2, lo, off, n, n, i);
    }
  }

  // Entry i is a relocation whose target no later entry touches.
  ghost predicate Settled(m: seq<byte>, lo: nat, off: nat, n: nat, i: nat)
    requires i < n && off + n * RELA <= |m|
  {
    && Entry(m, off, i).kind == R_RELATIVE
    && var t := Sub64(Entry(m, off, i).offset, lo);
       forall j, x :: i < j < n && t <= x < t + 8 ==> !Hits(m, lo, off, j, x)
  }

  ghost predicate WordsApart(m: seq<byte>, m1: seq<byte>, m2: seq<byte>, b1: nat, b2: nat, lo: nat, off: nat, i: nat)
    requires off + i * RELA + RELA <= |m| && |m1| == |m2| == |m|
  {
    var t := Sub64(Entry(m, off, i).offset, lo);
    && t + 8 <= |m|
    && Rd64(m1, t) == (b1 + Entry(m, off, i).addend) % U64
    && Rd64(m2, t) == (b2 + Entry(m, off, i).addend) % U64
    && Rd64(m2, t) == (Rd64(m1, t) + b2 - b1) % U64
  }

  // The images at two bases: alike off the targets, and settled targets as far apart as the bases.
  ghost predicate SameButTargets(m: seq<byte>, m1: seq<byte>, m2: seq<byte>, b1: nat, b2: nat, lo: nat, off: nat,
                                 n: nat)
    requires off + n * RELA <= |m| && |m1| == |m2| == |m|
  {
    && (forall x :: 0 <= x < |m| && (forall i :: 0 <= i < n ==> !Hits(m, lo, off, i, x)) ==> m1[x] == m[x] == m2[x])
    && (forall i :: 0 <= i < n && Settled(m, lo, off, n, i) ==> WordsApart(m, m1, m2, b1, b2, lo, off, i))
  }

  // The dynamic header at `va` announces a table of n entries at `off`.
  ghost predicate TableAt(m: seq<byte>, lo: nat, va: nat, memsz: nat, off: nat, n: nat) {
    var at := Sub64(va, lo);
    && at + memsz <= |m| && DynCount(m, at, 0) >= 0
    && var k := DynCount(m, at, 0);
       var relaV, relaSz := LastVal(m, at, k, DT_RELA, 0), LastVal(m, at, k, DT_RELASZ, 0);
       relaV != 0 && relaSz != 0 && off == Sub64(relaV, lo) && n == relaSz / RELA && off + relaSz <= |m|
  }

  /** An image linked at two bases: without a table nothing changes, and with one only its targets differ. */
  lemma LinkedTwice(m: seq<byte>, b1: nat, b2: nat, lo: nat, va: nat, memsz: nat)
    requires Linked(m, b1, lo, va, memsz).Image? && Linked(m, b2, lo, va, memsz).Image?
    ensures var m1, m2 := Linked(m, b1, lo, va, memsz).bytes, Linked(m, b2, lo, va, memsz).bytes;
      && ((forall off, n :: !TableAt(m, lo, va, memsz, off, n)) ==> m1 == m == m2)
      && (forall off, n :: TableAt(m, lo, va, memsz, off, n) && MissTable(m, lo, off, n) ==>
            SameButTargets(m, m1, m2, b1, b2, lo, off, n))
  {
    hide Relocated, DynCount, LastVal, MissTable, SameButTargets, Sub64;
    var m1, m2 := Linked(m, b1, lo, va, memsz).bytes, Linked(m, b2, lo, va, memsz).bytes;
    var at := Sub64(va, lo);
    var k := DynCount(m, at, 0);
    var relaV, relaSz := LastVal(m, at, k, DT_RELA, 0), LastVal(m, at, k, DT_RELASZ, 0);
    if relaV != 0 && relaSz != 0 {
      assert TableAt(m, lo, va, memsz, Sub64(relaV, lo), relaSz / RELA);
    }
    forall off, n | TableAt(m, lo, va, memsz, off, n) && MissTable(m, lo, off, n)
      ensures SameButTargets(m, m1, m2, b1, b2, lo, off, n)
    {
      TargetsApart(m, b1, b2, lo, off, n);
    }
  }

  lemma TargetsApart(m: seq<byte>, b1: nat, b2: nat, lo: nat, off: nat, n: nat)
    requires off + n * RELA <= |m| && MissTable(m, lo, off, n)
    requires Relocated(m, b1, lo, off, n).Image? && Relocated(m, b2, lo, off, n).Image?
    ensures SameButTargets(m, Relocated(m, b1, lo, off, n).bytes, Relocated(m, b2, lo, off, n).bytes, b1, b2, lo, off,
                           n)
  {
    hide Relocated, MissTable, Settled, Hits, WordsApart;
    PositionIndependent(m, b1, b2, lo, off, n);
  }

  /**
   The ABI asks for the load bias plus addend; the loader stores the image's base plus
   addend. The two agree exactly when the lowest segment is at address 0.
   */
  lemma MeetsAbi(base: nat, lo: nat, addend: nat)
    requires lo < U64
    ensures (base + addend) % U64 == (base - lo + addend) % U64 <==> lo == 0
  {
  }

  // ----- the loops -----

  method ScanDynamic(m: array<byte>, pad: nat, size: nat, at: nat) returns (relaV: nat, relaSz: nat, relaEnt: nat)
    requires pad + size <= m.Length && DynCount(m[pad..pad + size], at, 0) >= 0
    ensures var s := m[pad..pad + size];
      var n := DynCount(s, at, 0);
      relaV == LastVal(s, at, n, DT_RELA, 0) && relaSz == LastVal(s, at, n, DT_RELASZ, 0)
      && relaEnt == LastVal(s, at, n, DT_RELAENT, RELA)
  {
    hide Rd64, DynCount;
    ghost var s := m[pad..pad + size];
    ghost var n := DynCount(s, at, 0);
    relaV, relaSz, relaEnt := 0, 0, RELA;
    var k := 0;
    var tag := ReadWord(m, pad, size, at);
    while tag != DT_NULL
      invariant 0 <= k <= n && at + k * DYN + DYN <= size && tag == TagAt(s, at, k)
      invariant relaV == LastVal(s, at, k, DT_RELA, 0) && relaSz == LastVal(s, at, k, DT_RELASZ, 0)
      invariant relaEnt == LastVal(s, at, k, DT_RELAENT, RELA)
      decreases n - k
    {
      var val := ReadWord(m, pad, size, at + k * DYN + 8);
      if tag == DT_RELA {
        relaV := val;
      }
      if tag == DT_RELASZ {
        relaSz := val;
      }
      if tag == DT_RELAENT {
        relaEnt := val;
      }
      k := k + 1;
      tag := ReadWord(m, pad, size, at + k * DYN);
    }
  }

  // A word of the image.
  method ReadWord(m: array<byte>, pad: nat, size: nat, i: nat) returns (w: nat)
    requires pad + size <= m.Length && i + 8 <= size
    ensures w == Rd64(m[pad..pad + size], i)
  {
    w := Rd64(m[pad..pad + size], i);
  }

  // A word of the image, replaced.
  method WriteWord(m: array<byte>, pad: nat, size: nat, i: nat, w: nat)
    requires pad + size <= m.Length && i + 8 <= size
    modifies m
    ensures m[pad..pad + size] == Wr64(old(m[pad..pad + size]), i, w)
  {
    var b := ToBytes(w, 8);
    for k := 0 to 8
      invariant forall x :: 0 <= x < m.Length && !(pad + i <= x < pad + i + k) ==> m[x] == old(m[x])
      invariant forall x :: 0 <= x < k ==> m[pad + i + x] == b[x]
    {
      m[pad + i + k] := b[k];
    }
    WordPut(old(m[pad..pad + size]), m[pad..pad + size], i, w);
  }

  lemma WordPut(s: seq<byte>, t: seq<byte>, i: nat, w: nat)
    requires i + 8 <= |s| == |t|
    requires forall x :: 0 <= x < |s| && !(i <= x < i + 8) ==> t[x] == s[x]
    requires forall x :: i <= x < i + 8 ==> t[x] == ToBytes(w, 8)[x - i]
    ensures t == Wr64(s, i, w)
  {
    hide ToBytes;
  }

  /** The relocation loop: rc 0 with the image relocated, or the code it stops with. */
  method Relocate(m: array<byte>, pad: nat, size: nat, base: nat, lo: nat, off: nat, n: nat) returns (rc: int)
    requires pad + size <= m.Length && size < U64 && off + n * RELA <= size
    requires !Relocated(m[pad..pad + size], base, lo, off, n).Astray?
    modifies m
    ensures rc == 0 ==> Relocated(old(m[pad..pad + size]), base, lo, off, n) == Image(m[pad..pad + size])
    ensures rc != 0 ==> Relocated(old(m[pad..pad + size]), base, lo, off, n) == Refused(rc)
  {
    hide Apply, RelaAt;
    ghost var s := m[pad..pad + size];
    for i := 0 to n
      invariant Relocated(s, base, lo, off, i) == Image(m[pad..pad + size])
    {
      FirstTrouble(s, base, lo, off, i + 1, n);
      var ok := RelocateOne(m, pad, size, base, lo, off + i * RELA);
      if !ok {
        return -26;
      }
    }
    return 0;
  }

  /** One entry of the table: false if its target lies outside the image. */
  method RelocateOne(m: array<byte>, pad: nat, size: nat, base: nat, lo: nat, at: nat) returns (ok: bool)
    requires pad + size <= m.Length && size < U64 && at + RELA <= size
    requires !Apply(m[pad..pad + size], base, lo, RelaAt(m[pad..pad + size], at)).Astray?
    modifies m
    ensures ok ==>
      Apply(old(m[pad..pad + size]), base, lo, RelaAt(old(m[pad..pad + size]), at)) == Image(m[pad..pad + size])
    ensures !ok ==> Apply(old(m[pad..pad + size]), base, lo, RelaAt(old(m[pad..pad + size]), at)) == Refused(-26)
  {
    hide Wr64, Rd64;
    var info := ReadWord(m, pad, size, at + 8);
    if info % U32 != R_RELATIVE {
      return true;
    }
    var offset := ReadWord(m, pad, size, at);
    var addend := ReadWord(m, pad, size, at + 16);
    var t := Sub64(offset, lo);
    if (t + 8) % U64 > size {
      return false;
    }
    WriteWord(m, pad, size, t, (base + addend) % U64);
    return true;
  }

  // Once refused or astray, a run stays so.
  lemma {:induction false} FirstTrouble(m: seq<byte>, base: nat, lo: nat, off: nat, k: nat, n: nat)
    requires k <= n && off + n * RELA <= |m|
    ensures !Relocated(m, base, lo, off, k).Image? ==> Relocated(m, base, lo, off, n) == Relocated(m, base, lo, off, k)
    decreases n - k
  {
    if k < n {
      FirstTrouble(m, base, lo, off, k + 1, n);
    }
  }

  /** The dynamic part of the loader. */
  method Link(m: array<byte>, pad: nat, size: nat, base: nat, lo: nat, va: nat, memsz: nat) returns (rc: int)
    requires pad + size <= m.Length && size < U64
    requires !Linked(m[pad..pad + size], base, lo, va, memsz).Astray?
    modifies m
    ensures rc == 0 ==> Linked(old(m[pad..pad + size]), base, lo, va, memsz) == Image(m[pad..pad + size])
    ensures rc != 0 ==> Linked(old(m[pad..pad + size]), base, lo, va, memsz) == Refused(rc)
  {
    hide DynCount, LastVal, Relocated;
    var at := Sub64(va, lo);
    if (at + memsz) % U64 > size {
      return -23;
    }
    var relaV, relaSz, relaEnt := ScanDynamic(m, pad, size, at);
    if relaV != 0 && relaSz != 0 {
      if relaEnt != RELA {
        return -24;
      }
      var off := Sub64(relaV, lo);
      if (off + relaSz) % U64 > size {
        return -25;
      }
      rc := Relocate(m, pad, size, base, lo, off, relaSz / RELA);
      return;
    }
    return 0;
  }
}
