/**
 A FAT16 volume on a medium, and what it means: the FAT copies as tables of cells,
 the root region as sectors, the data region as clusters of sectors. The sector and
 byte arithmetic of the driver is settled here, once.
 */
module FatVolume {
  import opened Bytes

  const CELLS_PER_SECTOR := 256
  const NO_LBA := 0xFFFF_FFFF_FFFF_FFFF

  /**
   The fields `fat16_mount` fills in (sectors of 512 bytes). `clusters` is the number of
   data clusters the medium really holds, a figure the driver never reads.
   */
  datatype Geom = Geom(spc: nat, nfats: nat, rootEnt: nat, fatsz: nat,
                       fatLba: nat, rootLba: nat, dataLba: nat, clusters: nat)

  datatype Volume = Volume(fat: seq<seq<u16>>, root: seq<Sector>, data: seq<seq<Sector>>)

  predicate Laid(g: Geom, img: Image) {
    && 1 <= g.spc < 0x100 && 1 <= g.nfats < 0x100
    && 1 <= g.fatsz <= 256 && g.clusters + 2 <= 0xFFF7
    && g.rootEnt % 16 == 0 && g.rootEnt < 0x1_0000
    && g.rootLba == g.fatLba + g.nfats * g.fatsz
    && g.dataLba == g.rootLba + g.rootEnt / 16
    && g.dataLba + g.clusters * g.spc <= |img| < NO_LBA
  }

  // ----- where things are -----

  function FatSec(g: Geom, fi: nat, c: nat): nat {
    g.fatLba + fi * g.fatsz + c / CELLS_PER_SECTOR
  }

  function DataSec(g: Geom, c: nat, s: nat): nat
    requires c >= 2
  {
    g.dataLba + (c - 2) * g.spc + s
  }

  lemma MulMono(a: nat, b: nat, m: nat)
    requires a < b
    ensures a * m + m <= b * m
  {
    assert (a + 1) * m <= b * m;
  }

  lemma FatSecInside(g: Geom, img: Image, fi: nat, c: nat)
    requires Laid(g, img) && fi < g.nfats && c < g.fatsz * CELLS_PER_SECTOR
    ensures FatSec(g, fi, c) < g.rootLba <= g.dataLba <= |img|
  {
    MulMono(fi, g.nfats, g.fatsz);
  }

  lemma FatSecApart(g: Geom, fi: nat, c: nat, fi': nat, c': nat)
    requires c < g.fatsz * CELLS_PER_SECTOR && c' < g.fatsz * CELLS_PER_SECTOR
    requires FatSec(g, fi, c) == FatSec(g, fi', c')
    ensures fi == fi' && c / CELLS_PER_SECTOR == c' / CELLS_PER_SECTOR
  {
    if fi < fi' { MulMono(fi, fi', g.fatsz); }
    if fi' < fi { MulMono(fi', fi, g.fatsz); }
  }

  lemma DataSecInside(g: Geom, img: Image, c: nat, s: nat)
    requires Laid(g, img) && 2 <= c < g.clusters + 2 && s < g.spc
    ensures g.dataLba <= DataSec(g, c, s) < g.dataLba + g.clusters * g.spc <= |img|
  {
    MulMono(c - 2, g.clusters, g.spc);
  }

  // ----- what is not the volume's -----

  predicate Outside(g: Geom, lba: nat) {
    lba < g.fatLba || lba >= g.dataLba + g.clusters * g.spc
  }

  ghost predicate SameOutside(g: Geom, a: Image, b: Image) {
    |a| == |b| && forall lba :: 0 <= lba < |a| && Outside(g, lba) ==> b[lba] == a[lba]
  }

  // Every image from place `since` on differs from `home` inside the volume only.
  ghost predicate Guarded(g: Geom, home: Image, imgs: seq<Image>, since: nat) {
    since < |imgs| && forall k :: since <= k < |imgs| ==> SameOutside(g, home, imgs[k])
  }

  lemma GuardedWrite(g: Geom, home: Image, imgs: seq<Image>, since: nat, lba: nat, s: Sector)
    requires Guarded(g, home, imgs, since) && lba < |imgs[|imgs| - 1]| && !Outside(g, lba)
    ensures Guarded(g, home, imgs + [imgs[|imgs| - 1][lba := s]], since)
  {
    hide Outside;
    assert SameOutside(g, home, imgs[|imgs| - 1]);
  }

  // ----- the view -----

  function Cell(g: Geom, img: Image, fi: nat, c: nat): u16
    requires Laid(g, img) && fi < g.nfats && c < g.fatsz * CELLS_PER_SECTOR
  {
    FatSecInside(g, img, fi, c);
    Rd16(img[FatSec(g, fi, c)], c % CELLS_PER_SECTOR * 2)
  }

  function FatOf(g: Geom, img: Image, fi: nat): (f: seq<u16>)
    requires Laid(g, img) && fi < g.nfats
    ensures |f| == g.fatsz * CELLS_PER_SECTOR
  {
    seq(g.fatsz * CELLS_PER_SECTOR, c requires 0 <= c < g.fatsz * CELLS_PER_SECTOR => Cell(g, img, fi, c))
  }

  function ClusterOf(g: Geom, img: Image, k: nat): (d: seq<Sector>)
    requires Laid(g, img) && k < g.clusters
    ensures |d| == g.spc
  {
    MulMono(k, g.clusters, g.spc);
    img[g.dataLba + k * g.spc..g.dataLba + k * g.spc + g.spc]
  }

  function ViewOf(g: Geom, img: Image): (v: Volume)
    requires Laid(g, img)
    ensures |v.fat| == g.nfats && |v.root| == g.rootEnt / 16 && |v.data| == g.clusters
  {
    assert g.dataLba <= |img|;
    Volume(seq(g.nfats, fi requires 0 <= fi < g.nfats => FatOf(g, img, fi)),
           img[g.rootLba..g.dataLba],
           seq(g.clusters, k requires 0 <= k < g.clusters => ClusterOf(g, img, k)))
  }

  // ----- single-sector writes, seen through the view -----

  function SetFat(v: Volume, fi: nat, c: nat, x: u16): Volume
    requires fi < |v.fat| && c < |v.fat[fi]|
  {
    var row: seq<u16> := v.fat[fi][c := x];
    v.(fat := v.fat[fi := row])
  }

  function SetRoot(v: Volume, i: nat, s: Sector): Volume
    requires i < |v.root|
  {
    v.(root := v.root[i := s])
  }

  function SetData(v: Volume, c: nat, i: nat, s: Sector): Volume
    requires 2 <= c < |v.data| + 2 && i < |v.data[c - 2]|
  {
    var sectors: seq<Sector> := v.data[c - 2][i := s];
    v.(data := v.data[c - 2 := sectors])
  }

  function FatSectorWith(g: Geom, img: Image, fi: nat, c: nat, x: u16): Sector
    requires Laid(g, img) && fi < g.nfats && c < g.fatsz * CELLS_PER_SECTOR
  {
    FatSecInside(g, img, fi, c);
    Wr16(img[FatSec(g, fi, c)], c % CELLS_PER_SECTOR * 2, x)
  }

  lemma SameCell(c: nat, c': nat)
    requires c / CELLS_PER_SECTOR == c' / CELLS_PER_SECTOR
    ensures c % CELLS_PER_SECTOR * 2 == c' % CELLS_PER_SECTOR * 2 <==> c == c'
  {
  }

  lemma LaidAfterWrite(g: Geom, img: Image, lba: nat, s: Sector)
    requires Laid(g, img) && lba < |img|
    ensures Laid(g, img[lba := s])
  {
  }

  lemma CellAfterFatWrite(g: Geom, img: Image, fi: nat, c: nat, x: u16, fi': nat, c': nat)
    requires Laid(g, img) && fi < g.nfats && c < g.fatsz * CELLS_PER_SECTOR
    requires fi' < g.nfats && c' < g.fatsz * CELLS_PER_SECTOR
    ensures FatSec(g, fi, c) < |img|
    ensures var img' := img[FatSec(g, fi, c) := FatSectorWith(g, img, fi, c, x)];
      Laid(g, img')
      && Cell(g, img', fi', c') == if fi' == fi && c' == c then x else Cell(g, img, fi', c')
  {
    hide FatSec, Laid, Rd16, Wr16;
    FatSecInside(g, img, fi, c);
    FatSecInside(g, img, fi', c');
    LaidAfterWrite(g, img, FatSec(g, fi, c), FatSectorWith(g, img, fi, c, x));
    var at, at' := c % CELLS_PER_SECTOR * 2, c' % CELLS_PER_SECTOR * 2;
    if FatSec(g, fi, c) == FatSec(g, fi', c') {
      FatSecApart(g, fi, c, fi', c');
      SameCell(c, c');
      ReadOverWrite16(img[FatSec(g, fi, c)], at, at', x);
    }
  }

  lemma RowAfterFatWrite(g: Geom, img: Image, fi: nat, c: nat, x: u16, fi': nat)
    requires Laid(g, img) && fi < g.nfats && c < g.fatsz * CELLS_PER_SECTOR && fi' < g.nfats
    ensures FatSec(g, fi, c) < |img|
    ensures var img' := img[FatSec(g, fi, c) := FatSectorWith(g, img, fi, c, x)];
      Laid(g, img')
      && FatOf(g, img', fi') == if fi' == fi then FatOf(g, img, fi')[c := x] else FatOf(g, img, fi')
  {
    FatSecInside(g, img, fi, c);
    var img' := img[FatSec(g, fi, c) := FatSectorWith(g, img, fi, c, x)];
    assert Laid(g, img');
    forall c' | 0 <= c' < g.fatsz * CELLS_PER_SECTOR
      ensures Cell(g, img', fi', c') == if fi' == fi && c' == c then x else Cell(g, img, fi', c')
    {
      CellAfterFatWrite(g, img, fi, c, x, fi', c');
    }
  }

  lemma FatAfterFatWrite(g: Geom, img: Image, fi: nat, c: nat, x: u16)
    requires Laid(g, img) && fi < g.nfats && c < g.fatsz * CELLS_PER_SECTOR
    ensures FatSec(g, fi, c) < |img|
    ensures var img' := img[FatSec(g, fi, c) := FatSectorWith(g, img, fi, c, x)];
      Laid(g, img') && ViewOf(g, img').fat == SetFat(ViewOf(g, img), fi, c, x).fat
  {
    FatSecInside(g, img, fi, c);
    forall fi' | 0 <= fi' < g.nfats
      ensures var img' := img[FatSec(g, fi, c) := FatSectorWith(g, img, fi, c, x)];
        FatOf(g, img', fi') == if fi' == fi then FatOf(g, img, fi')[c := x] else FatOf(g, img, fi')
    {
      RowAfterFatWrite(g, img, fi, c, x, fi');
    }
  }

  // A write outside the FAT region leaves every FAT cell alone.
  lemma FatAfterOtherWrite(g: Geom, img: Image, lba: nat, s: Sector)
    requires Laid(g, img) && g.rootLba <= lba < |img|
    ensures ViewOf(g, img[lba := s]).fat == ViewOf(g, img).fat
  {
    var img' := img[lba := s];
    forall fi | 0 <= fi < g.nfats
      ensures FatOf(g, img', fi) == FatOf(g, img, fi)
    {
      forall c | 0 <= c < g.fatsz * CELLS_PER_SECTOR
        ensures Cell(g, img', fi, c) == Cell(g, img, fi, c)
      {
        FatSecInside(g, img, fi, c);
      }
    }
  }

  lemma ClusterAfterOtherWrite(g: Geom, img: Image, lba: nat, s: Sector, k: nat)
    requires Laid(g, img) && lba < g.dataLba <= |img| && k < g.clusters
    ensures ClusterOf(g, img[lba := s], k) == ClusterOf(g, img, k)
  {
    var at := k * g.spc;
    MulMono(k, g.clusters, g.spc);
    assert g.dataLba <= g.dataLba + at;
  }

  lemma DataAfterOtherWrite(g: Geom, img: Image, lba: nat, s: Sector)
    requires Laid(g, img) && lba < g.dataLba <= |img|
    ensures ViewOf(g, img[lba := s]).data == ViewOf(g, img).data
  {
    forall k | 0 <= k < g.clusters
      ensures ClusterOf(g, img[lba := s], k) == ClusterOf(g, img, k)
    {
      ClusterAfterOtherWrite(g, img, lba, s, k);
    }
  }

  lemma SectorVersusCluster(g: Geom, img: Image, c: nat, i: nat, k: nat)
    requires Laid(g, img) && 2 <= c < g.clusters + 2 && i < g.spc && k < g.clusters
    ensures 0 <= k * g.spc && g.dataLba + k * g.spc + g.spc <= |img|
    ensures k < c - 2 ==> g.dataLba + k * g.spc + g.spc <= DataSec(g, c, i)
    ensures k > c - 2 ==> DataSec(g, c, i) < g.dataLba + k * g.spc
  {
    MulMono(k, g.clusters, g.spc);
    if k < c - 2 { MulMono(k, c - 2, g.spc); }
    if c - 2 < k { MulMono(c - 2, k, g.spc); }
  }

  lemma ClusterAfterDataWrite(g: Geom, img: Image, c: nat, i: nat, s: Sector, k: nat)
    requires Laid(g, img) && 2 <= c < g.clusters + 2 && i < g.spc && k < g.clusters
    ensures DataSec(g, c, i) < |img| && Laid(g, img[DataSec(g, c, i) := s])
    ensures ClusterOf(g, img[DataSec(g, c, i) := s], k)
         == if k == c - 2 then ClusterOf(g, img, k)[i := s] else ClusterOf(g, img, k)
  {
    DataSecInside(g, img, c, i);
    SectorVersusCluster(g, img, c, i, k);
    var at := g.dataLba + k * g.spc;
    if k == c - 2 {
      assert DataSec(g, c, i) == at + i;
      assert img[at + i := s][at..at + g.spc] == img[at..at + g.spc][i := s];
    } else {
      assert img[DataSec(g, c, i) := s][at..at + g.spc] == img[at..at + g.spc];
    }
  }

  /** Rewriting the sector of one FAT cell changes that cell of that copy, and nothing else. */
  lemma ViewAfterFatWrite(g: Geom, img: Image, fi: nat, c: nat, x: u16)
    requires Laid(g, img) && fi < g.nfats && c < g.fatsz * CELLS_PER_SECTOR
    ensures FatSec(g, fi, c) < |img|
    ensures var img' := img[FatSec(g, fi, c) := FatSectorWith(g, img, fi, c, x)];
      Laid(g, img') && ViewOf(g, img') == SetFat(ViewOf(g, img), fi, c, x)
  {
    FatSecInside(g, img, fi, c);
    FatAfterFatWrite(g, img, fi, c, x);
    DataAfterOtherWrite(g, img, FatSec(g, fi, c), FatSectorWith(g, img, fi, c, x));
  }

  lemma ViewAfterRootWrite(g: Geom, img: Image, i: nat, s: Sector)
    requires Laid(g, img) && i < g.rootEnt / 16
    ensures g.rootLba + i < |img| && Laid(g, img[g.rootLba + i := s])
    ensures ViewOf(g, img[g.rootLba + i := s]) == SetRoot(ViewOf(g, img), i, s)
  {
    FatAfterOtherWrite(g, img, g.rootLba + i, s);
    DataAfterOtherWrite(g, img, g.rootLba + i, s);
  }

  lemma ViewAfterDataWrite(g: Geom, img: Image, c: nat, i: nat, s: Sector)
    requires Laid(g, img) && 2 <= c < g.clusters + 2 && i < g.spc
    ensures DataSec(g, c, i) < |img| && Laid(g, img[DataSec(g, c, i) := s])
    ensures ViewOf(g, img[DataSec(g, c, i) := s]) == SetData(ViewOf(g, img), c, i, s)
  {
    DataSecInside(g, img, c, i);
    FatAfterOtherWrite(g, img, DataSec(g, c, i), s);
    forall k | 0 <= k < g.clusters
      ensures ClusterOf(g, img[DataSec(g, c, i) := s], k)
           == if k == c - 2 then ClusterOf(g, img, k)[i := s] else ClusterOf(g, img, k)
    {
      ClusterAfterDataWrite(g, img, c, i, s, k);
    }
    assert ViewOf(g, img[DataSec(g, c, i) := s]).data == SetData(ViewOf(g, img), c, i, s).data;
  }
}
