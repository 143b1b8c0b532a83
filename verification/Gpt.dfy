/** Finding a partition by its identifier in a GPT. */
module Gpt {
  import opened Arith
  import opened Bytes
  import opened Disk
  import opened Guid

  const SIGNATURE: seq<byte> := [0x45, 0x46, 0x49, 0x20, 0x50, 0x41, 0x52, 0x54]
  const ENTRY := 128

  datatype Partition = Partition(start: nat, count: nat, kind: nat)

  const NO_PARTITION := Partition(0, 0, 0)

  // ----- the table -----

  function PerSector(esz: nat): (n: nat)
    requires ENTRY <= esz <= 512
    ensures 1 <= n <= 4 && n * esz <= 512 < (n + 1) * esz
  {
    512 / esz
  }

  // The entry at an index, where the code looks for it; nothing if its sector is not there.
  function Slot(img: Image, lba: nat, esz: nat, idx: nat): seq<byte>
    requires ENTRY <= esz <= 512
  {
    var n := PerSector(esz);
    if lba + idx / n < |img| then SlotIn(img[lba + idx / n], esz, idx % n) else []
  }

  function SlotIn(sec: Sector, esz: nat, k: nat): (e: seq<byte>)
    requires ENTRY <= esz <= 512 && k < PerSector(esz)
    ensures |e| == ENTRY
  {
    assert (k + 1) * esz <= PerSector(esz) * esz by { MulMono(k + 1, PerSector(esz), esz); }
    sec[k * esz..k * esz + ENTRY]
  }

  predicate IsMatch(e: seq<byte>, want: Raw) {
    |e| == ENTRY && e[..16] != seq(16, _ => 0) && e[16..32] == want
  }

  // idx is the first used entry, in index order, with that identifier.
  ghost predicate FirstMatch(img: Image, lba: nat, esz: nat, n: nat, want: Raw, idx: nat)
    requires ENTRY <= esz <= 512
  {
    && idx < n && IsMatch(Slot(img, lba, esz, idx), want)
    && NoMatch(img, lba, esz, idx, want)
  }

  // The first n entries are all there, and none matches.
  ghost predicate NoMatch(img: Image, lba: nat, esz: nat, n: nat, want: Raw)
    requires ENTRY <= esz <= 512
  {
    forall j :: 0 <= j < n ==> Slot(img, lba, esz, j) != [] && !IsMatch(Slot(img, lba, esz, j), want)
  }

  function PartOf(e: seq<byte>): Partition
    requires |e| == ENTRY
  {
    Partition(Rd64(e, 32), (Rd64(e, 40) - Rd64(e, 32) + 1) % U64, 0)
  }

  predicate Backwards(e: seq<byte>)
    requires |e| == ENTRY
  {
    Rd64(e, 40) < Rd64(e, 32)
  }

  // Sectors the code reads: the rounded-up sum is a 32-bit one.
  function SectorCount(nent: nat, n: nat): nat
    requires n > 0
  {
    (nent + n - 1) % U32 / n
  }

  // How many entries that makes it look at.
  function Scanned(nent: nat, n: nat): nat
    requires n > 0
  {
    var most := SectorCount(nent, n) * n;
    if nent <= most then nent else most
  }

  /** Every entry is looked at exactly when the rounded-up count does not wrap. */
  lemma ScansAll(nent: nat, n: nat)
    requires 0 < nent < U32 && 1 <= n <= 4
    ensures Scanned(nent, n) == nent <==> nent + n - 1 < U32
    ensures nent + n - 1 >= U32 ==> Scanned(nent, n) == 0
  {
    if nent + n - 1 < U32 {
      RoundUp(nent, n);
    } else {
      SmallQuot((nent + n - 1) % U32, n);
    }
  }

  lemma RoundUp(x: nat, n: nat)
    requires 1 <= n <= 4
    ensures (x + n - 1) / n * n >= x
  {
    if n == 1 {
    } else if n == 2 {
    } else if n == 3 {
    } else {
    }
  }

  lemma SmallQuot(x: nat, n: nat)
    requires x < n
    ensures x / n == 0
  {
  }

  // ----- flat scanning -----

  lemma Places(idx: nat, n: nat)
    requires n > 0
    ensures idx == idx / n * n + idx % n
  {
  }

  /**
   Looking entry by entry at byte offset index * size finds the same places exactly when the
   size divides a sector (128, 256 or 512), or for the entries of the first sector.
   */
  lemma FlatPlace(esz: nat, idx: nat)
    requires ENTRY <= esz <= 512
    ensures var n := PerSector(esz);
      idx / n * 512 + idx % n * esz == idx * esz <==> idx < n || n * esz == 512
    ensures PerSector(esz) * esz == 512 <==> esz == 128 || esz == 256 || esz == 512
  {
    var n := PerSector(esz);
    var q, r := idx / n, idx % n;
    Places(idx, n);
    assert idx * esz == q * (n * esz) + r * esz by {
      assert (q * n + r) * esz == q * n * esz + r * esz;
      assert q * n * esz == q * (n * esz);
    }
    if q == 0 {
      assert idx < n;
    } else {
      assert idx >= n by { MulMono(1, q, n); }
      assert q * 512 == q * (n * esz) <==> n * esz == 512 by { MulCancel(q, 512, n * esz); }
    }
    if n == 4 {
    } else if n == 3 {
    } else if n == 2 {
    }
  }

  lemma MulCancel(q: nat, a: nat, b: nat)
    requires q > 0
    ensures q * a == q * b <==> a == b
  {
    if q * a == q * b {
      assert q * (a - b) == 0;
    }
  }

  /** For those sizes the table is a flat array of entries. */
  lemma SlotIsFlat(img: Image, lba: nat, esz: nat, idx: nat)
    requires esz == 128 || esz == 256 || esz == 512
    requires lba + idx / PerSector(esz) < |img|
    ensures idx * esz + ENTRY <= |Flat(img[lba..])|
    ensures Slot(img, lba, esz, idx) == Flat(img[lba..])[idx * esz..idx * esz + ENTRY]
  {
    hide Flat, PerSector;
    var n := PerSector(esz);
    var q, r := idx / n, idx % n;
    FlatPlace(esz, idx);
    MulMono(r + 1, n, esz);
    assert img[lba..][q] == img[lba + q];
    FlatSector(img[lba..], q, r * esz, ENTRY);
  }

  // ----- the code -----

  // Where entry k of sector si stands in index order.
  lemma SlotAt(img: Image, lba: nat, esz: nat, si: nat, k: nat)
    requires ENTRY <= esz <= 512 && k < PerSector(esz) && lba + si < |img|
    ensures Slot(img, lba, esz, si * PerSector(esz) + k) == SlotIn(img[lba + si], esz, k)
  {
    var n := PerSector(esz);
    QuotRem(si, n, k);
  }

  lemma QuotRem(q: nat, n: nat, r: nat)
    requires r < n <= 4
    ensures (q * n + r) / n == q && (q * n + r) % n == r
  {
    if n == 1 {
    } else if n == 2 {
    } else if n == 3 {
    } else {
    }
  }

  datatype Verdict = Nothing | Hit(part: Partition) | Broken

  function VerdictOf(e: seq<byte>): Verdict
    requires |e| == ENTRY
  {
    if Backwards(e) then Broken else Hit(PartOf(e))
  }

  ghost predicate FirstHit(img: Image, lba: nat, esz: nat, n: nat, want: Raw, idx: nat, v: Verdict)
    requires ENTRY <= esz <= 512
  {
    FirstMatch(img, lba, esz, n, want, idx) && v == VerdictOf(Slot(img, lba, esz, idx))
  }

  function Upto(si: nat, n: nat, nent: nat): nat {
    if si * n <= nent then si * n else nent
  }

  // The sixteen bytes are all zero.
  method AllZero(e: seq<byte>) returns (z: bool)
    requires |e| >= 16
    ensures z <==> e[..16] == seq(16, _ => 0)
  {
    for k := 0 to 16
      invariant forall j :: 0 <= j < k ==> e[j] == 0
    {
      if e[k] != 0 {
        assert e[..16][k] != 0;
        return false;
      }
    }
    return true;
  }

  method GuidEq(e: seq<byte>, at: nat, want: Raw) returns (eq: bool)
    requires at + 16 <= |e|
    ensures eq <==> e[at..at + 16] == want
  {
    for k := 0 to 16
      invariant forall j :: 0 <= j < k ==> e[at + j] == want[j]
    {
      if e[at + k] != want[k] {
        assert e[at..at + 16][k] != want[k];
        return false;
      }
    }
    return true;
  }

  /** The entries of one sector, as far as the table goes. */
  method ScanSector(sec: Sector, si: nat, nent: nat, esz: nat, want: Raw, ghost img: Image, ghost lba: nat)
    returns (v: Verdict, ghost idx: nat)
    requires ENTRY <= esz <= 512 && lba + si < |img| && sec == img[lba + si] && si * PerSector(esz) <= nent
    requires NoMatch(img, lba, esz, si * PerSector(esz), want)
    ensures v == Nothing ==> NoMatch(img, lba, esz, Upto(si + 1, PerSector(esz), nent), want)
    ensures v != Nothing ==> FirstHit(img, lba, esz, nent, want, idx, v)
  {
    hide Slot, SlotIn, IsMatch;
    var n := PerSector(esz);
    idx := 0;
    var k := 0;
    while k < n
      invariant k <= n && si * n + k <= nent && NoMatch(img, lba, esz, si * n + k, want)
    {
      if si * n + k >= nent {
        return Nothing, idx;
      }
      SlotAt(img, lba, esz, si, k);
      var e := SlotIn(sec, esz, k);
      var unused := AllZero(e);
      var same := GuidEq(e, 16, want);
      MatchIs(e, want);
      if !unused && same {
        idx := si * n + k;
        return VerdictOf(e), idx;
      }
      k := k + 1;
    }
    return Nothing, idx;
  }

  lemma MatchIs(e: seq<byte>, want: Raw)
    requires |e| == ENTRY
    ensures IsMatch(e, want) <==> e[..16] != seq(16, _ => 0) && e[16..32] == want
  {
  }

  // The table's place and shape, from a header with the signature.
  function TableLba(h: Sector): nat { Rd64(h, 72) }
  function TableLength(h: Sector): nat { Rd32(h, 80) }
  function EntrySize(h: Sector): nat { Rd32(h, 84) }

  predicate HeaderOk(h: Sector) {
    h[..8] == SIGNATURE && EntrySize(h) >= ENTRY && TableLength(h) != 0 && EntrySize(h) <= 512
  }

  function HeaderCode(h: Sector): (rc: int)
    ensures rc == 0 <==> HeaderOk(h)
    ensures rc == 0 || -8 <= rc <= -5
  {
    if h[..8] != SIGNATURE then -5
    else if EntrySize(h) < ENTRY then -6
    else if TableLength(h) == 0 then -7
    else if EntrySize(h) > 512 then -8
    else 0
  }

  /** All fields of the header sector, in their order. */
  datatype RawHeader = RawHeader(signature: seq<byte>, revision: u32, size: u32, crc: u32, reserved: u32, mine: u64,
                                 other: u64, firstUsable: u64, lastUsable: u64, disk: Raw, tableLba: u64,
                                 length: u32, entrySize: u32, rest: seq<byte>)

  function HeaderBytes(h: RawHeader): seq<byte> {
    h.signature + ToBytes(h.revision, 4) + ToBytes(h.size, 4) + ToBytes(h.crc, 4) + ToBytes(h.reserved, 4)
    + ToBytes(h.mine, 8) + ToBytes(h.other, 8) + ToBytes(h.firstUsable, 8) + ToBytes(h.lastUsable, 8) + h.disk
    + ToBytes(h.tableLba, 8) + ToBytes(h.length, 4) + ToBytes(h.entrySize, 4) + h.rest
  }

  /**
   Every header, its fields one after another and little-endian, is read as what it says; -5
   to -8 name the first of the four checks that fails.
   */
  lemma HeaderLayout(sec: Sector, h: RawHeader)
    requires |h.signature| == 8 && |h.rest| == 424 && sec == HeaderBytes(h)
    ensures TableLba(sec) == h.tableLba && TableLength(sec) == h.length && EntrySize(sec) == h.entrySize
    ensures HeaderCode(sec)
         == if h.signature != [0x45, 0x46, 0x49, 0x20, 0x50, 0x41, 0x52, 0x54] then -5
            else if h.entrySize < 128 then -6
            else if h.length == 0 then -7
            else if h.entrySize > 512 then -8 else 0
  {
    hide ToBytes, FromBytes, Rd64, Rd32;
    var rec := HeaderBytes(h);
    Pow256Values();
    assert sec[0..0 + |rec|] == rec && sec[..8] == h.signature;
    FieldReads(sec, 0, rec, 72, 8, h.tableLba);
    FieldReads(sec, 0, rec, 80, 4, h.length);
    FieldReads(sec, 0, rec, 84, 4, h.entrySize);
    SmallWords(sec, 80);
    SmallWords(sec, 84);
    WideWord(sec, 72);
  }

  lemma WideWord(s: seq<byte>, i: nat)
    requires i + 8 <= |s|
    ensures Rd64(s, i) == Rd(s, i, 8)
  {
  }

  /** All fields of an entry, in their order. */
  datatype RawEntry = RawEntry(kind: Raw, id: Raw, first: u64, last: u64, attrs: u64, name: seq<byte>)

  function EntryBytes(r: RawEntry): seq<byte> {
    r.kind + r.id + ToBytes(r.first, 8) + ToBytes(r.last, 8) + ToBytes(r.attrs, 8) + r.name
  }

  /**
   So is every entry: it matches by its second identifier unless the first is all zero, and
   stands for the sectors from its first to its last, or is broken if they are the wrong way
   round. Only the count of all 2^64 sectors wraps.
   */
  lemma EntryLayout(e: seq<byte>, r: RawEntry, want: Raw)
    requires |r.name| == 72 && e == EntryBytes(r)
    ensures |e| == ENTRY
    ensures IsMatch(e, want) <==> r.id == want && exists k :: 0 <= k < 16 && r.kind[k] != 0
    ensures VerdictOf(e) == Broken <==> r.last < r.first
    ensures r.first <= r.last ==>
      && VerdictOf(e).Hit? && VerdictOf(e).part.start == r.first && VerdictOf(e).part.kind == 0
      && VerdictOf(e).part.start + VerdictOf(e).part.count
         == if r.first == 0 && r.last == U64 - 1 then 0 else r.last + 1
  {
    hide ToBytes, FromBytes, Rd64;
    Pow256Values();
    assert e[0..0 + |e|] == e && e[..16] == r.kind && e[16..32] == r.id;
    FieldReads(e, 0, e, 32, 8, r.first);
    FieldReads(e, 0, e, 40, 8, r.last);
    WideWord(e, 32);
    WideWord(e, 40);
    MatchIs(e, want);
    assert (exists k :: 0 <= k < 16 && r.kind[k] != 0) || r.kind == seq(16, _ => 0);
  }

  // What a run over n entries reports.
  ghost predicate Outcome(img: Image, lba: nat, esz: nat, n: nat, want: Raw, rc: int, part: Partition, idx: nat)
    requires ENTRY <= esz <= 512
  {
    && (rc == 0 ==> FirstHit(img, lba, esz, n, want, idx, Hit(part)))
    && (rc == -11 ==> FirstHit(img, lba, esz, n, want, idx, Broken))
    && (rc == -12 ==> NoMatch(img, lba, esz, n, want))
    && (rc == 0 || rc == -11 || rc == -12)
  }

  // The same, over the table its header describes.
  ghost predicate Reports(img: Image, want: Raw, rc: int, part: Partition, idx: nat) {
    && |img| > 1 && HeaderOk(img[1])
    && var h := img[1];
       Outcome(img, TableLba(h), EntrySize(h), Scanned(TableLength(h), PerSector(EntrySize(h))), want, rc, part, idx)
  }

  /** A report against the bytes of the medium: the extent is that of the entry found. */
  lemma ReportedExtent(img: Image, want: Raw, rc: int, part: Partition, idx: nat, h: RawHeader, r: RawEntry)
    requires Reports(img, want, rc, part, idx)
    requires |h.signature| == 8 && |h.rest| == 424 && img[1] == HeaderBytes(h)
    requires ENTRY <= h.entrySize <= 512 && |r.name| == 72 && Slot(img, h.tableLba, h.entrySize, idx) == EntryBytes(r)
    ensures rc == 0 ==>
      && r.id == want && part.start == r.first <= r.last && part.kind == 0
      && part.start + part.count == if r.first == 0 && r.last == U64 - 1 then 0 else r.last + 1
    ensures rc == -11 ==> r.id == want && r.last < r.first
  {
    hide Slot, NoMatch, HeaderBytes, EntryBytes, VerdictOf, TableLba, TableLength, EntrySize, Scanned, IsMatch;
    HeaderLayout(img[1], h);
    EntryLayout(EntryBytes(r), r, want);
  }

  /**
   `part_gpt_find_by_partuuid`: the first used entry with that identifier; without a read
   error the codes say which step found what.
   */
  method FindByPartuuid(d: Disk, uuid: seq<byte>) returns (rc: int, part: Partition, ghost idx: nat)
    requires 0 !in uuid
    modifies d`readFaults
    ensures rc == -3 <==> Parse(uuid).NotUuid?
    ensures Parse(uuid).Uuid? && d.readFaults == old(d.readFaults) ==>
      |d.sectors| > 1
      && if HeaderOk(d.sectors[1]) then Reports(d.sectors, Parse(uuid).raw, rc, part, idx)
         else rc == HeaderCode(d.sectors[1])
    ensures Parse(uuid).Uuid? && d.readFaults > old(d.readFaults) ==> rc == -4 || rc == -10
    ensures rc == -10 ==> |d.sectors| > 1 && HeaderOk(d.sectors[1])
    ensures rc != 0 ==> part == NO_PARTITION
  {
    hide Parse, Slot, FirstMatch, NoMatch;
    part, idx := NO_PARTITION, 0;
    var want, sec;
    rc, want := GuidParse(uuid);
    if rc != 0 {
      return -3, part, idx;
    }
    rc, sec := d.Read(1);
    if rc != 0 {
      return -4, part, idx;
    }
    rc := HeaderCode(sec);
    if rc != 0 {
      return;
    }
    rc, part, idx := ScanTable(d, TableLba(sec), TableLength(sec), EntrySize(sec), want);
  }

  method ScanTable(d: Disk, lba: nat, nent: nat, esz: nat, want: Raw) returns (rc: int, part: Partition, ghost idx: nat)
    requires ENTRY <= esz <= 512 && 0 < nent < U32
    modifies d`readFaults
    ensures d.readFaults > old(d.readFaults) ==> rc == -10
    ensures rc != 0 ==> part == NO_PARTITION
    ensures d.readFaults >= old(d.readFaults)
    ensures d.readFaults == old(d.readFaults) ==>
      Outcome(d.sectors, lba, esz, Scanned(nent, PerSector(esz)), want, rc, part, idx)
  {
    hide Slot, FirstHit, NoMatch, Scanned, SectorCount, Upto, PerSector;
    part, idx := NO_PARTITION, 0;
    var n := PerSector(esz);
    var count := SectorCount(nent, n);
    var si := 0;
    NothingYet(d.sectors, lba, esz, nent, want);
    while si < count
      invariant si <= count && d.readFaults == old(d.readFaults)
      invariant NoMatch(d.sectors, lba, esz, Upto(si, n, nent), want)
    {
      var sec;
      rc, sec := d.Read(lba + si);
      if rc != 0 {
        return -10, part, idx;
      }
      SectorStarts(nent, n, si);
      var v;
      v, idx := ScanSector(sec, si, nent, esz, want, d.sectors, lba);
      match v
      case Hit(p) => return 0, p, idx;
      case Broken => return -11, part, idx;
      case Nothing =>
        si := si + 1;
    }
    AllScanned(nent, n);
    FewerMatch(d.sectors, lba, esz, Upto(si, n, nent), Scanned(nent, n), want);
    return -12, part, idx;
  }

  lemma NothingYet(img: Image, lba: nat, esz: nat, nent: nat, want: Raw)
    requires ENTRY <= esz <= 512
    ensures NoMatch(img, lba, esz, Upto(0, PerSector(esz), nent), want)
  {
  }

  lemma FewerMatch(img: Image, lba: nat, esz: nat, m: nat, n: nat, want: Raw)
    requires ENTRY <= esz <= 512 && NoMatch(img, lba, esz, m, want) && n <= m
    ensures NoMatch(img, lba, esz, n, want)
  {
  }

  lemma AllScanned(nent: nat, n: nat)
    requires n > 0
    ensures Scanned(nent, n) == Upto(SectorCount(nent, n), n, nent)
  {
  }

  lemma SectorStarts(nent: nat, n: nat, si: nat)
    requires 0 < nent < U32 && 1 <= n <= 4 && si < SectorCount(nent, n)
    ensures Scanned(nent, n) == nent && si * n <= nent && Upto(si, n, nent) == si * n
  {
    ScansAll(nent, n);
    if nent + n - 1 >= U32 {
      SmallQuot((nent + n - 1) % U32, n);
    } else {
      MulMono(si + 1, SectorCount(nent, n), n);
    }
  }
}
