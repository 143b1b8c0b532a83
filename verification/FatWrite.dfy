/** The writing half of the driver: FAT entries, cluster allocation, directory slots and clusters. */
module FatWrite {
  import opened Bytes
  import opened FatVolume
  import opened FatTree
  import opened FatSteps
  import opened FatInsert
  import opened FatMount
  import opened DirIter

  // ----- FAT cells -----

  // An image left behind while cell c is being set: the first n copies, n >= 1, hold x.
  ghost predicate FatPhase(g: Geom, v: Volume, img: Image, c: nat, x: u16) {
    Laid(g, img) && Shaped(v) && c < |v.fat[0]|
    && exists n | 1 <= n <= |v.fat| :: ViewOf(g, img) == SetCopies(v, n, c, x)
  }

  lemma SetCopiesNone(v: Volume, c: nat, x: u16)
    requires Shaped(v) && c < |v.fat[0]|
    ensures SetCopies(v, 0, c, x) == v
  {
  }

  lemma SetCopiesMore(v: Volume, n: nat, c: nat, x: u16)
    requires Shaped(v) && c < |v.fat[0]| && n < |v.fat|
    ensures SetFat(SetCopies(v, n, c, x), n, c, x) == SetCopies(v, n + 1, c, x)
  {
  }

  /**
   `fat16_set_fat_entry`: every copy of one cell is set, copy 0 first; an I/O fault leaves
   the first n copies set.
   */
  method SetFatEntry(fs: Fat16, clus: u16, val: u16) returns (rc: int, ghost n: nat)
    requires fs.Mounted() && clus < fs.geo.fatsz * CELLS_PER_SECTOR
    modifies fs.disk
    ensures fs.Mounted() && rc <= 0 && n <= fs.geo.nfats && old(fs.disk.trace) <= fs.disk.trace
    ensures fs.disk.readFaults >= old(fs.disk.readFaults) && fs.disk.writeFaults >= old(fs.disk.writeFaults)
    ensures rc == 0 <==> fs.disk.NoFaultSince(old(fs.disk.readFaults), old(fs.disk.writeFaults))
    ensures rc == 0 ==> n == fs.geo.nfats
    ensures Shaped(old(fs.View())) && fs.View() == SetCopies(old(fs.View()), n, clus, val)
    ensures forall k | |old(fs.disk.trace)| <= k < |fs.disk.trace| ::
      FatPhase(fs.geo, old(fs.View()), fs.disk.trace[k], clus, val)
  {
    hide ViewOf, Laid, SetCopies, Wr16;
    ghost var v, reads0, writes0, before := fs.View(), fs.disk.readFaults, fs.disk.writeFaults, fs.disk.trace;
    ViewIsShaped(fs.geo, fs.disk.sectors);
    SetCopiesNone(v, clus, val);
    var off := clus as int * 2;
    var sec, idx := off / 512, off % 512;
    n := 0;
    for fi := 0 to fs.geo.nfats
      invariant fi == n && fs.Mounted()
      invariant fs.disk.readFaults == reads0 && fs.disk.writeFaults == writes0
      invariant n <= |v.fat| && fs.View() == SetCopies(v, n, clus, val)
      invariant before <= fs.disk.trace
      invariant forall k | |before| <= k < |fs.disk.trace| :: FatPhase(fs.geo, v, fs.disk.trace[k], clus, val)
    {
      rc := WriteCell(fs, fi, clus, val, sec, idx);
      if rc != 0 {
        return;
      }
      SetCopiesMore(v, n, clus, val);
      n := n + 1;
      assert FatPhase(fs.geo, v, fs.disk.sectors, clus, val);
    }
    return 0, n;
  }

  // One round of the copy loop.
  method WriteCell(fs: Fat16, fi: nat, clus: u16, val: u16, sec: nat, idx: nat) returns (rc: int)
    requires fs.Mounted() && clus < fs.geo.fatsz * CELLS_PER_SECTOR && fi < fs.geo.nfats
    requires sec == clus as int * 2 / 512 && idx == clus as int * 2 % 512
    modifies fs.disk
    ensures fs.Mounted() && rc <= 0
    ensures fs.disk.readFaults >= old(fs.disk.readFaults) && fs.disk.writeFaults >= old(fs.disk.writeFaults)
    ensures rc == 0 <==> fs.disk.NoFaultSince(old(fs.disk.readFaults), old(fs.disk.writeFaults))
    ensures rc != 0 ==> fs.disk.sectors == old(fs.disk.sectors) && fs.disk.trace == old(fs.disk.trace)
    ensures rc == 0 ==> fs.disk.trace == old(fs.disk.trace) + [fs.disk.sectors]
    ensures fi < |old(fs.View()).fat| && clus < |old(fs.View()).fat[fi]|
    ensures rc == 0 ==> fs.View() == SetFat(old(fs.View()), fi, clus, val)
  {
    hide ViewOf, Laid, Wr16;
    ViewIsShaped(fs.geo, fs.disk.sectors);
    FatSecInside(fs.geo, fs.disk.sectors, fi, clus);
    var lba := fs.geo.fatLba + fi * fs.geo.fatsz + sec;
    assert lba == FatSec(fs.geo, fi, clus) && idx == clus % CELLS_PER_SECTOR * 2;
    var buf;
    rc, buf := fs.disk.Read(lba);
    if rc != 0 {
      return;
    }
    ViewAfterFatWrite(fs.geo, fs.disk.sectors, fi, clus, val);
    FatSecIsInside(fs.geo, fs.disk.sectors, fi, clus);
    GuardedWrite(fs.geo, fs.home, fs.disk.trace, fs.since, lba, Wr16(buf, idx, val));
    rc := fs.disk.Write(lba, Wr16(buf, idx, val));
  }

  lemma FatSecIsInside(g: Geom, img: Image, fi: nat, c: nat)
    requires Laid(g, img) && fi < g.nfats && c < g.fatsz * CELLS_PER_SECTOR
    ensures !Outside(g, FatSec(g, fi, c))
  {
    FatSecInside(g, img, fi, c);
    NotNegative(fi, g.fatsz);
    NotNegative(g.clusters, g.spc);
  }

  lemma NotNegative(a: nat, b: nat)
    ensures a * b >= 0
  {
  }

  // ----- allocation -----

  // The lowest free cell from i on.
  function NextFree(f: seq<u16>, i: nat): (r: nat)
    requires i <= |f|
    ensures i <= r <= |f| && (r < |f| ==> f[r] == 0)
    ensures forall k :: i <= k < r ==> f[k] != 0
    decreases |f| - i
  {
    if i == |f| || f[i] == 0 then i else NextFree(f, i + 1)
  }

  // The cell at byte offset i of FAT sector sec, in copy 0.
  lemma CellInSector(g: Geom, img: Image, sec: nat, i: nat)
    requires Laid(g, img) && sec < g.fatsz && i < 511 && i % 2 == 0
    ensures g.fatLba + sec < |img| && sec * 256 + i / 2 < |ViewOf(g, img).fat[0]|
    ensures Rd16(img[g.fatLba + sec], i) == ViewOf(g, img).fat[0][sec * 256 + i / 2]
  {
    var c := sec * 256 + i / 2;
    FatSecInside(g, img, 0, c);
    assert FatSec(g, 0, c) == g.fatLba + sec && c % 256 * 2 == i;
    assert ViewOf(g, img).fat[0][c] == Cell(g, img, 0, c);
  }

  /**
   `fat16_alloc_clus`: takes the lowest free cluster from 2 on and marks it as a chain's
   end in every copy. Without an I/O fault it fails exactly when copy 0 has no free cell.
   */
  method AllocClus(fs: Fat16) returns (rc: int, clus: u16, ghost n: nat)
    requires fs.Mounted()
    modifies fs.disk
    ensures fs.Mounted() && rc <= 0 && n <= fs.geo.nfats && old(fs.disk.trace) <= fs.disk.trace
    ensures fs.disk.readFaults >= old(fs.disk.readFaults) && fs.disk.writeFaults >= old(fs.disk.writeFaults)
    ensures Shaped(old(fs.View())) && |old(fs.View()).fat[0]| > 2
    ensures var f := old(fs.View()).fat[0];
      && (NextFree(f, 2) == |f| ==>
            && rc != 0 && fs.disk.trace == old(fs.disk.trace) && fs.View() == old(fs.View())
            && (rc == -3 || !fs.disk.NoFaultSince(old(fs.disk.readFaults), old(fs.disk.writeFaults))))
      && (NextFree(f, 2) < |f| ==>
            && fs.View() == SetCopies(old(fs.View()), n, NextFree(f, 2), 0xFFFF)
            && (rc == 0 ==> clus == NextFree(f, 2) && n == fs.geo.nfats)
            && (fs.disk.NoFaultSince(old(fs.disk.readFaults), old(fs.disk.writeFaults)) <==> rc == 0)
            && forall k | |old(fs.disk.trace)| <= k < |fs.disk.trace| ::
                 FatPhase(fs.geo, old(fs.View()), fs.disk.trace[k], NextFree(f, 2), 0xFFFF))
  {
    hide ViewOf, Laid, SetCopies, Rd16, FatPhase, Guarded;
    ghost var v := fs.View();
    ViewIsShaped(fs.geo, fs.disk.sectors);
    AllocBounds(fs.geo, fs.disk.sectors);
    clus, n := 0, 0;
    ghost var target := NextFree(v.fat[0], 2);
    if target < |v.fat[0]| {
      SetCopiesNone(v, target, 0xFFFF);
    }
    if fs.geo.fatsz * 512 / 2 < 3 {
      assert false;
      return -2, clus, n;
    }
    for sec := 0 to fs.geo.fatsz
      invariant fs.Mounted() && fs.View() == v && fs.disk.trace == old(fs.disk.trace)
      invariant fs.disk.NoFaultSince(old(fs.disk.readFaults), old(fs.disk.writeFaults))
      invariant target >= sec * 256
    {
      var buf, hit, i;
      rc, buf := fs.disk.Read(fs.geo.fatLba + sec);
      if rc != 0 {
        return rc, clus, n;
      }
      hit, i := ScanFatSector(fs, sec, buf);
      if hit {
        var found := (sec * 256 + i / 2) % 0x1_0000;
        assert target == found;
        rc, n := SetFatEntry(fs, found, 0xFFFF);
        return rc, found, n;
      }
    }
    return -3, clus, n;
  }

  // The inner loop: the first zero cell of one FAT sector, from cluster 2 on.
  method ScanFatSector(fs: Fat16, sec: nat, buf: Sector) returns (hit: bool, i: nat)
    requires fs.Mounted() && sec < fs.geo.fatsz <= 256
    requires fs.geo.fatLba + sec < |fs.disk.sectors| && buf == fs.disk.sectors[fs.geo.fatLba + sec]
    requires Shaped(fs.View()) && |fs.View().fat[0]| == fs.geo.fatsz * 256
    requires NextFree(fs.View().fat[0], 2) >= sec * 256
    ensures var target := NextFree(fs.View().fat[0], 2);
      && (hit ==> i <= 510 && i % 2 == 0 && target == sec * 256 + i / 2)
      && (!hit ==> target >= sec * 256 + 256)
  {
    hide ViewOf, Laid, Rd16, Guarded;
    ghost var target := NextFree(fs.View().fat[0], 2);
    i := if sec == 0 then 4 else 0;
    while i + 1 < 512
      invariant 0 <= i <= 512 && i % 2 == 0 && (sec == 0 ==> i >= 4)
      invariant target >= sec * 256 + i / 2
    {
      CellInSector(fs.geo, fs.disk.sectors, sec, i);
      if Rd16(buf, i) == 0 {
        if sec * 256 + i / 2 < 2 {
          assert false;
        }
        return true, i;
      }
      i := i + 2;
    }
    return false, i;
  }

  lemma AllocBounds(g: Geom, img: Image)
    requires Laid(g, img)
    ensures g.fatsz >= 1 && g.fatsz * 256 <= 0x1_0000 && |ViewOf(g, img).fat[0]| == g.fatsz * 256
  {
  }

  // ----- directory slots -----

  /** `write_dirent_into_sector`: one slot of one sector, by read, modify and write. */
  method WriteDirent(fs: Fat16, lba: nat, ent: nat, slot: Slot) returns (rc: int)
    requires fs.Mounted() && ent < 16 && lba < |fs.disk.sectors| && !Outside(fs.geo, lba)
    modifies fs.disk
    ensures fs.disk.Valid() && rc <= 0 && Guarded(fs.geo, fs.home, fs.disk.trace, fs.since)
    ensures fs.disk.readFaults >= old(fs.disk.readFaults) && fs.disk.writeFaults >= old(fs.disk.writeFaults)
    ensures rc == 0 <==> fs.disk.NoFaultSince(old(fs.disk.readFaults), old(fs.disk.writeFaults))
    ensures rc != 0 ==> fs.disk.sectors == old(fs.disk.sectors) && fs.disk.trace == old(fs.disk.trace)
    ensures rc == 0 ==> fs.disk.trace == old(fs.disk.trace) + [fs.disk.sectors]
    ensures rc == 0 ==>
      fs.disk.sectors == old(fs.disk.sectors)[lba := PutSlot(old(fs.disk.sectors)[lba], ent, slot)]
  {
    var sec;
    rc, sec := fs.disk.Read(lba);
    if rc != 0 {
      return;
    }
    GuardedWrite(fs.geo, fs.home, fs.disk.trace, fs.since, lba, PutSlot(sec, ent, slot));
    rc := fs.disk.Write(lba, PutSlot(sec, ent, slot));
  }

  lemma SlotsAt(secs: seq<Sector>, j: nat, i: nat)
    requires j < |secs| && i < 16
    ensures j * 16 + i < |Slots(secs)| && Slots(secs)[j * 16 + i] == SlotOf(secs[j], i)
  {
  }

  // No free slot before position k.
  ghost predicate NoneFreeBefore(slots: seq<Slot>, k: nat) {
    forall i :: 0 <= i < k && i < |slots| ==> !IsFree(slots[i])
  }

  /** `find_free_dirent_root`: the first free slot of the root region. */
  method FindFreeRoot(fs: Fat16) returns (rc: int, lba: nat, ent: nat)
    requires fs.Mounted()
    modifies fs.disk`readFaults
    ensures fs.disk.readFaults >= old(fs.disk.readFaults) && rc <= 0
    ensures rc == 0 ==>
      fs.geo.rootLba <= lba < fs.geo.dataLba && ent < 16
      && FirstFree(Slots(fs.View().root), (lba - fs.geo.rootLba) * 16 + ent)
    ensures rc != 0 ==> (rc == -10 && Full(Slots(fs.View().root))) || fs.disk.readFaults > old(fs.disk.readFaults)
  {
    hide ViewOf, Slots;
    ghost var root := fs.View().root;
    assert |Slots(root)| == fs.geo.rootEnt;
    lba, ent := 0, 0;
    for e := 0 to fs.geo.rootEnt
      invariant fs.Mounted() && fs.View().root == root
      invariant NoneFreeBefore(Slots(root), e)
      invariant fs.disk.readFaults >= old(fs.disk.readFaults)
    {
      var secIdx, entIdx := e / 16, e % 16;
      lba := fs.geo.rootLba + secIdx;
      RootSectorIs(fs.geo, fs.disk.sectors, secIdx);
      var sec;
      rc, sec := fs.disk.Read(lba);
      if rc != 0 {
        return;
      }
      SlotsAt(root, secIdx, entIdx);
      assert secIdx * 16 + entIdx == e;
      if IsFree(SlotOf(sec, entIdx)) {
        return 0, lba, entIdx;
      }
    }
    return -10, lba, ent;
  }

  // Sector s of the cluster at place m, counted through the whole directory.
  function Place(m: nat, n: nat, s: nat): nat {
    m * n + s
  }

  lemma {:induction false} SectorInRun(data: seq<seq<Sector>>, cs: seq<u16>, n: nat, m: nat, s: nat)
    requires m < |cs| && s < n && forall k :: 0 <= k < |cs| ==> |Cluster(data, cs[k])| == n
    ensures Place(m, n, s) < |Secs(data, cs)| && Secs(data, cs)[Place(m, n, s)] == Cluster(data, cs[m])[s]
    ensures m == |cs| - 1 ==> |Secs(data, cs)| == Place(m, n, n)
  {
    hide Cluster, Secs, Place;
    SecsCons(data, cs);
    PlaceSteps(m, n, s);
    if m > 0 {
      assert cs[1..][m - 1] == cs[m];
      SectorInRun(data, cs[1..], n, m - 1, s);
      PlaceSteps(m, n, n);
    } else if |cs| == 1 {
      PlaceSteps(0, n, n);
    }
  }

  lemma SecsCons(data: seq<seq<Sector>>, cs: seq<u16>)
    requires cs != []
    ensures Secs(data, cs) == Cluster(data, cs[0]) + Secs(data, cs[1..])
    ensures |cs| == 1 ==> Secs(data, cs[1..]) == []
  {
  }

  lemma PlaceSteps(m: nat, n: nat, s: nat)
    ensures m == 0 ==> Place(m, n, s) == s
    ensures m > 0 ==> Place(m, n, s) == n + Place(m - 1, n, s)
  {
    if m > 0 {
      assert (m - 1) * n + n == m * n;
    }
  }

  lemma ChainSector(v: Volume, cs: seq<u16>, n: nat, m: nat, s: nat)
    requires Shaped(v) && IsChain(v, cs) && m < |cs| && s < n
    requires forall k :: 0 <= k < |v.data| ==> |v.data[k]| == n
    ensures Clus(v, cs[m]) && cs[m] >= 2
    ensures Place(m, n, s) < |Secs(v.data, cs)| && Secs(v.data, cs)[Place(m, n, s)] == v.data[cs[m] - 2][s]
    ensures m == |cs| - 1 ==> |Secs(v.data, cs)| == Place(m, n, n) && IsEoc(Next(v, cs[m]))
    ensures m < |cs| - 1 ==> cs[m + 1] == Next(v, cs[m]) && Clus(v, cs[m + 1]) && !IsEoc(cs[m + 1])
  {
    hide Place, Secs;
    forall k | 0 <= k < |cs|
      ensures Clus(v, cs[k]) && |Cluster(v.data, cs[k])| == n
    {
    }
    SectorInRun(v.data, cs, n, m, s);
  }

  // The slot loop over one sector.
  method ScanDirSector(sec: Sector) returns (free: bool, i: nat)
    ensures i <= 16 && forall k :: 0 <= k < i ==> !IsFree(SlotOf(sec, k))
    ensures free ==> i < 16 && IsFree(SlotOf(sec, i))
    ensures !free ==> i == 16
  {
    i := 0;
    while i < 16
      invariant 0 <= i <= 16 && forall k :: 0 <= k < i ==> !IsFree(SlotOf(sec, k))
    {
      if IsFree(SlotOf(sec, i)) {
        return true, i;
      }
      i := i + 1;
    }
    return false, i;
  }

  lemma SectorScanned(secs: seq<Sector>, j: nat, i: nat)
    requires j < |secs| && i <= 16 && NoneFreeBefore(Slots(secs), j * 16)
    requires forall k :: 0 <= k < i ==> !IsFree(SlotOf(secs[j], k))
    ensures NoneFreeBefore(Slots(secs), j * 16 + i)
    ensures i < 16 && IsFree(SlotOf(secs[j], i)) ==> FirstFree(Slots(secs), j * 16 + i)
  {
    hide SlotOf, IsFree, Slots;
    forall x | j * 16 <= x < j * 16 + i
      ensures x < |Slots(secs)| && !IsFree(Slots(secs)[x])
    {
      SlotsAt(secs, j, x - j * 16);
    }
    if i < 16 { SlotsAt(secs, j, i); }
  }

  // A slot to write to: in the directory made of the chain cs, and on the medium.
  ghost predicate SlotFound(g: Geom, v: Volume, cs: seq<u16>, m: nat, s: nat, lba: nat, ent: nat) {
    && m < |cs| && cs[m] >= 2 && s < g.spc && lba == DataSec(g, cs[m], s) && ent < 16
    && FirstFree(Slots(Secs(v.data, cs)), Place(m, g.spc, s) * 16 + ent)
  }

  // The sector loop over one cluster, at place m of the chain cs.
  method ScanDirCluster(fs: Fat16, clus: u16, ghost cs: seq<u16>, ghost m: nat)
    returns (rc: int, found: bool, lba: nat, ent: nat, ghost s: nat)
    requires fs.Mounted() && Shaped(fs.View()) && IsChain(fs.View(), cs) && m < |cs| && cs[m] == clus
    requires NoneFreeBefore(Slots(Secs(fs.View().data, cs)), Place(m, fs.geo.spc, 0) * 16)
    modifies fs.disk`readFaults
    ensures fs.disk.readFaults >= old(fs.disk.readFaults) && rc <= 0
    ensures rc != 0 ==> fs.disk.readFaults > old(fs.disk.readFaults)
    ensures rc == 0 && found ==> SlotFound(fs.geo, fs.View(), cs, m, s, lba, ent)
    ensures rc == 0 && !found ==>
      NoneFreeBefore(Slots(Secs(fs.View().data, cs)), Place(m, fs.geo.spc, fs.geo.spc) * 16)
  {
    hide ViewOf, Slots, Secs, IsChain, Laid, SlotOf, FirstFree, IsFree, DataSec, NoneFreeBefore;
    ghost var v, secs := fs.View(), Secs(fs.View().data, cs);
    ViewIsShaped(fs.geo, fs.disk.sectors);
    SpcPositive(fs.geo, fs.disk.sectors);
    ChainSector(v, cs, fs.geo.spc, m, 0);
    lba, ent, s := 0, 0, 0;
    var k := 0;
    while k < fs.geo.spc
      invariant k <= fs.geo.spc && fs.Mounted() && fs.View() == v && fs.disk.readFaults >= old(fs.disk.readFaults)
      invariant NoneFreeBefore(Slots(secs), Place(m, fs.geo.spc, k) * 16)
    {
      ChainSector(v, cs, fs.geo.spc, m, k);
      DataSectorIs(fs.geo, fs.disk.sectors, clus, k);
      lba := DataSec(fs.geo, clus, k);
      var sec;
      rc, sec := fs.disk.Read(lba);
      if rc != 0 {
        return rc, false, lba, ent, s;
      }
      var free, i := ScanDirSector(sec);
      SectorScanned(secs, Place(m, fs.geo.spc, k), i);
      if free {
        return 0, true, lba, i, k;
      }
      k := k + 1;
    }
    return 0, false, lba, ent, s;
  }

  lemma SpcPositive(g: Geom, img: Image)
    requires Laid(g, img)
    ensures g.spc > 0
  {
  }

  /**
   `find_free_dirent_cluschain`: 0 and the first free slot of the directory, or 1 and the
   last cluster when every slot is in use.
   */
  method FindFreeChain(fs: Fat16, first: u16, ghost cs: seq<u16>)
    returns (rc: int, last: u16, lba: nat, ent: nat, ghost m: nat, ghost s: nat)
    requires fs.Mounted() && Shaped(fs.View())
    requires first >= 2 ==> IsChain(fs.View(), cs) && cs[0] == first
    modifies fs.disk`readFaults
    ensures fs.disk.readFaults >= old(fs.disk.readFaults)
    ensures first < 2 ==> rc == -11
    ensures rc == 0 ==> first >= 2 && SlotFound(fs.geo, fs.View(), cs, m, s, lba, ent)
    ensures rc == 1 ==> first >= 2 && Full(Slots(Secs(fs.View().data, cs))) && cs != [] && last == cs[|cs| - 1]
    ensures rc != 0 && rc != 1 ==> rc < 0 && (first < 2 || fs.disk.readFaults > old(fs.disk.readFaults))
  {
    hide ViewOf, Slots, Secs, IsChain, Laid, FirstFree, Next, IsFree, SlotOf, Place, SlotFound, NoneFreeBefore, Full;
    var clus := first;
    last, lba, ent, m, s := first, 0, 0, 0, 0;
    if clus < 2 {
      return -11, last, lba, ent, m, s;
    }
    ghost var v, secs := fs.View(), Secs(fs.View().data, cs);
    ViewIsShaped(fs.geo, fs.disk.sectors);
    SpcPositive(fs.geo, fs.disk.sectors);
    HeadIsCluster(v, cs);
    FirstPlace(secs, fs.geo.spc);
    while true
      invariant fs.Mounted() && fs.View() == v && fs.disk.readFaults >= old(fs.disk.readFaults)
      invariant m < |cs| && cs[m] == clus && clus >= 2
      invariant NoneFreeBefore(Slots(secs), Place(m, fs.geo.spc, 0) * 16)
      decreases |cs| - m
    {
      var found;
      rc, found, lba, ent, s := ScanDirCluster(fs, clus, cs, m);
      if rc != 0 {
        return;
      }
      if found {
        last := clus;
        return;
      }
      ChainSector(v, cs, fs.geo.spc, m, 0);
      var nxt;
      rc, nxt := fs.NextClus(clus);
      if rc != 0 {
        return;
      }
      if IsEoc(nxt) {
        AllScanned(secs, Place(m, fs.geo.spc, fs.geo.spc));
        return 1, clus, lba, ent, m, s;
      }
      if nxt < 2 {
        return -12, last, lba, ent, m, s;
      }
      NextPlace(m, fs.geo.spc);
      clus := nxt;
      m := m + 1;
    }
  }

  lemma FirstPlace(secs: seq<Sector>, n: nat)
    ensures NoneFreeBefore(Slots(secs), Place(0, n, 0) * 16)
  {
  }

  lemma NextPlace(m: nat, n: nat)
    ensures Place(m, n, n) == Place(m + 1, n, 0)
  {
  }

  lemma AllScanned(secs: seq<Sector>, n: nat)
    requires n == |secs| && NoneFreeBefore(Slots(secs), n * 16)
    ensures Full(Slots(secs))
  {
  }

  // ----- a new directory's cluster -----

  // Only cluster c differs so far.
  ghost predicate ScratchPhase(g: Geom, v: Volume, img: Image, c: u16) {
    Laid(g, img) && OnlyCluster(v, ViewOf(g, img), c)
  }

  // The first n sectors of cluster c hold what `want` says, the others what they held.
  function Partly(was: seq<Sector>, want: seq<Sector>, n: nat): seq<Sector>
    requires n <= |was| == |want|
  {
    want[..n] + was[n..]
  }

  function WithCluster(v: Volume, c: u16, secs: seq<Sector>): (w: Volume)
    requires 2 <= c < |v.data| + 2 && |secs| == |v.data[c - 2]|
    ensures OnlyCluster(v, w, c)
  {
    v.(data := v.data[c - 2 := secs])
  }

  lemma PartlyMore(v: Volume, c: u16, want: seq<Sector>, n: nat)
    requires 2 <= c < |v.data| + 2 && n < |want| == |v.data[c - 2]|
    ensures SetData(WithCluster(v, c, Partly(v.data[c - 2], want, n)), c, n, want[n])
         == WithCluster(v, c, Partly(v.data[c - 2], want, n + 1))
  {
    var was := v.data[c - 2];
    assert Partly(was, want, n)[n := want[n]] == Partly(was, want, n + 1);
  }

  // One sector of the cluster being filled.
  method FillSector(fs: Fat16, c: u16, ghost v: Volume, ghost want: seq<Sector>, n: nat, sec: Sector) returns (rc: int)
    requires fs.Mounted() && 2 <= c < fs.geo.clusters + 2 && n < fs.geo.spc == |want| && sec == want[n]
    requires c < |v.data| + 2 && |v.data[c - 2]| == |want|
    requires fs.View() == WithCluster(v, c, Partly(v.data[c - 2], want, n))
    modifies fs.disk
    ensures fs.Mounted() && rc <= 0 && fs.disk.readFaults == old(fs.disk.readFaults)
    ensures fs.disk.writeFaults >= old(fs.disk.writeFaults)
    ensures rc == 0 <==> fs.disk.writeFaults == old(fs.disk.writeFaults)
    ensures rc != 0 ==> fs.disk.trace == old(fs.disk.trace) && fs.View() == old(fs.View())
    ensures rc == 0 ==> fs.disk.trace == old(fs.disk.trace) + [fs.disk.sectors]
    ensures rc == 0 ==> fs.View() == WithCluster(v, c, Partly(v.data[c - 2], want, n + 1))
  {
    hide ViewOf, Laid, WithCluster, Partly, SetData;
    ViewAfterDataWrite(fs.geo, fs.disk.sectors, c, n, sec);
    PartlyMore(v, c, want, n);
    DataSecIsInside(fs.geo, fs.disk.sectors, c, n);
    GuardedWrite(fs.geo, fs.home, fs.disk.trace, fs.since, DataSec(fs.geo, c, n), sec);
    rc := fs.disk.Write(DataSec(fs.geo, c, n), sec);
  }

  lemma DataSecIsInside(g: Geom, img: Image, c: nat, s: nat)
    requires Laid(g, img) && 2 <= c < g.clusters + 2 && s < g.spc
    ensures DataSec(g, c, s) < |img| && !Outside(g, DataSec(g, c, s))
  {
    DataSecInside(g, img, c, s);
  }
}
