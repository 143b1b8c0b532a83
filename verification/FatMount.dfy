/** Mounting a volume, and following the links of its FAT. */
module FatMount {
  import opened Bytes
  import opened Disk
  import opened FatVolume
  import opened FatTree

  lemma ViewIsShaped(g: Geom, img: Image)
    requires Laid(g, img)
    ensures var v := ViewOf(g, img);
      Shaped(v) && |v.fat[0]| == g.fatsz * CELLS_PER_SECTOR
      && forall k :: 0 <= k < |v.data| ==> |v.data[k]| == g.spc
  {
  }

  lemma RootSectorIs(g: Geom, img: Image, i: nat)
    requires Laid(g, img) && i < g.rootEnt / 16
    ensures g.rootLba + i < |img| && img[g.rootLba + i] == ViewOf(g, img).root[i]
  {
    hide FatOf, ClusterOf;
    assert ViewOf(g, img).root == img[g.rootLba..g.dataLba];
  }

  lemma DataSectorIs(g: Geom, img: Image, c: nat, s: nat)
    requires Laid(g, img) && 2 <= c < g.clusters + 2 && s < g.spc
    ensures DataSec(g, c, s) < |img| && img[DataSec(g, c, s)] == ViewOf(g, img).data[c - 2][s]
  {
    DataSecInside(g, img, c, s);
    SectorVersusCluster(g, img, c, s, c - 2);
    assert ClusterOf(g, img, c - 2)[s] == img[DataSec(g, c, s)];
  }

  // The word where the cell of cluster c is, or would be if the FAT went on.
  function WordAt(g: Geom, img: Image, c: nat): u16 {
    var w0 := Word16(img, FatSec(g, 0, c), c);
    if w0 == 0 && g.nfats > 1 then Word16(img, FatSec(g, 1, c), c) else w0
  }

  function Word16(img: Image, lba: nat, c: nat): u16 {
    if lba < |img| then Rd16(img[lba], c % CELLS_PER_SECTOR * 2) else 0
  }

  lemma CellIs(g: Geom, img: Image, fi: nat, c: nat)
    requires Laid(g, img) && fi < g.nfats
    ensures c < g.fatsz * CELLS_PER_SECTOR ==>
      FatSec(g, fi, c) < |img| && ViewOf(g, img).fat[fi][c] == Rd16(img[FatSec(g, fi, c)], c % CELLS_PER_SECTOR * 2)
  {
    if c < g.fatsz * CELLS_PER_SECTOR {
      FatSecInside(g, img, fi, c);
    }
  }

  /** A mounted volume: where it lies on which disk. */
  class Fat16 {
    const disk: Disk
    const geo: Geom

    // The medium when it was mounted, and where in its history that was.
    ghost const home: Image
    ghost const since: nat

    constructor (d: Disk, g: Geom)
      requires d.Valid()
      ensures disk == d && geo == g && home == d.sectors && Guarded(g, home, d.trace, since)
    {
      disk, geo := d, g;
      home, since := d.sectors, |d.trace| - 1;
    }

    /** The volume lies where it should, and nothing outside it has changed since it was mounted. */
    ghost predicate Mounted()
      reads disk
    {
      disk.Valid() && Laid(geo, disk.sectors) && Guarded(geo, home, disk.trace, since)
    }

    ghost function View(): Volume
      requires Laid(geo, disk.sectors)
      reads disk
    {
      ViewOf(geo, disk.sectors)
    }

    /**
     `fat_next_clus`: copy 0, falling back to copy 1 where copy 0 reads zero. Nothing checks that
     the FAT has a cell of that number; beyond its end, the word is that of whatever lies there.
     */
    method NextClus(clus: u16) returns (rc: int, out: u16)
      requires Mounted()
      modifies disk`readFaults
      ensures disk.readFaults >= old(disk.readFaults) && (rc == 0 || rc == -2)
      ensures disk.readFaults == old(disk.readFaults) ==> rc == 0
      ensures rc == 0 && clus < geo.fatsz * CELLS_PER_SECTOR ==>
        out == Next(View(), clus) || (out == 0 && disk.readFaults > old(disk.readFaults))
      ensures rc == 0 && disk.readFaults == old(disk.readFaults) ==>
        FatSec(geo, 0, clus) < |disk.sectors| && out == WordAt(geo, disk.sectors, clus)
    {
      hide ViewOf, Laid, Guarded;
      ViewIsShaped(geo, disk.sectors);
      var off := clus as int * 2;
      var sec, idx := off / 512, off % 512;
      assert sec == clus / CELLS_PER_SECTOR && idx == clus % CELLS_PER_SECTOR * 2;
      var rc0, buf := disk.Read(geo.fatLba + sec);
      if rc0 != 0 {
        return -2, 0;
      }
      var v0 := Rd16(buf, idx);
      CellIs(geo, disk.sectors, 0, clus);
      if v0 == 0 && geo.nfats > 1 {
        CellIs(geo, disk.sectors, 1, clus);
        rc0, buf := disk.Read(geo.fatLba + geo.fatsz + sec);
        if rc0 == 0 {
          var v1 := Rd16(buf, idx);
          if v1 != 0 {
            return 0, v1;
          }
        }
      }
      return 0, v0;
    }
  }

  // ----- mounting -----

  /** The boot sector's fields, and where they put the three regions. */
  function GeomOf(bs: Sector, base: nat, clusters: nat): Geom {
    var fatLba := base + Rd16(bs, 14);
    var rootLba := fatLba + bs[16] * Rd16(bs, 22);
    Geom(bs[13], bs[16], Rd16(bs, 17), Rd16(bs, 22), fatLba, rootLba, rootLba + (Rd16(bs, 17) * 32 + 511) / 512,
         clusters)
  }

  function MountCode(bs: Sector): (rc: int)
    ensures rc == 0 || -6 <= rc <= -2
  {
    if bs[510] != 0x55 || bs[511] != 0xAA then -2
    else if Rd16(bs, 11) != 512 then -3
    else if bs[13] == 0 then -4
    else if bs[16] == 0 then -5
    else if Rd16(bs, 22) == 0 then -6
    else 0
  }

  /** The parameters of a boot sector, in their order, with the bytes before and after them. */
  datatype RawBoot = RawBoot(lead: seq<byte>, sectorSize: u16, spc: byte, reserved: u16, nfats: byte, rootEnt: u16,
                             total: u16, media: byte, fatsz: u16, rest: seq<byte>, mark: seq<byte>)

  function BootBytes(b: RawBoot): seq<byte> {
    b.lead + ToBytes(b.sectorSize, 2) + [b.spc] + ToBytes(b.reserved, 2) + [b.nfats] + ToBytes(b.rootEnt, 2)
    + ToBytes(b.total, 2) + [b.media] + ToBytes(b.fatsz, 2) + b.rest + b.mark
  }

  // The regions follow one another: reserved sectors, FAT copies, root entries of 32 bytes, clusters.
  ghost predicate LaysOut(g: Geom, b: RawBoot, base: nat) {
    && g.spc == b.spc && g.nfats == b.nfats && g.rootEnt == b.rootEnt && g.fatsz == b.fatsz
    && g.fatLba == base + b.reserved && g.rootLba == g.fatLba + b.nfats * b.fatsz
    && (g.dataLba - g.rootLba) * 512 - 512 < b.rootEnt * 32 <= (g.dataLba - g.rootLba) * 512
  }

  /**
   Every boot sector, its parameters little-endian and in their places, gives the layout they
   describe; -2 to -6 name the first of the five checks that fails.
   */
  lemma BootLayout(bs: Sector, b: RawBoot, base: nat, clusters: nat)
    requires |b.lead| == 11 && |b.rest| == 486 && |b.mark| == 2 && bs == BootBytes(b)
    ensures LaysOut(GeomOf(bs, base, clusters), b, base) && GeomOf(bs, base, clusters).clusters == clusters
    ensures MountCode(bs)
         == if b.mark != [0x55, 0xAA] then -2
            else if b.sectorSize != 512 then -3
            else if b.spc == 0 then -4
            else if b.nfats == 0 then -5
            else if b.fatsz == 0 then -6 else 0
  {
    hide ToBytes, FromBytes, Rd16, Laid;
    Pow256Values();
    var rec := BootBytes(b);
    assert bs[0..0 + |rec|] == rec;
    BootWord(bs, 11, b.sectorSize);
    BootWord(bs, 14, b.reserved);
    BootWord(bs, 17, b.rootEnt);
    BootWord(bs, 22, b.fatsz);
    assert bs[510..] == b.mark;
    assert bs[510] == bs[510..][0] && bs[511] == bs[510..][1];
  }

  lemma BootWord(bs: Sector, i: nat, x: u16)
    requires i + 2 <= 512 && bs[i..i + 2] == ToBytes(x, 2)
    ensures Rd16(bs, i) == x
  {
    Pow256Values();
    SmallWords(bs, i);
    FromToBytes(x, 2);
  }

  // A boot sector: one reserved sector, one sector a cluster, one FAT of one sector, some root entries.
  function PlainBoot(rootEnt: byte): Sector {
    seq(512, i =>
      if i == 12 then 2 else if i == 13 || i == 14 || i == 16 || i == 22 then 1 else if i == 17 then rootEnt
      else if i == 510 then 0x55 else if i == 511 then 0xAA else 0)
  }

  /**
   What a mount does not check. With it, the mounted volume is one the rest of the driver
   can handle; without it, it is not.
   */
  predicate Handled(g: Geom, size: nat) {
    g.fatsz <= 256 && g.rootEnt % 16 == 0 && g.clusters + 2 <= 0xFFF7 && g.dataLba + g.clusters * g.spc <= size < NO_LBA
  }

  lemma MountLays(bs: Sector, base: nat, clusters: nat, img: Image)
    requires MountCode(bs) == 0
    ensures Laid(GeomOf(bs, base, clusters), img) <==> Handled(GeomOf(bs, base, clusters), |img|)
  {
    var g := GeomOf(bs, base, clusters);
    assert g.rootEnt % 16 == 0 ==> (g.rootEnt * 32 + 511) / 512 == g.rootEnt / 16;
  }

  /** `fat16_mount`; `clusters` is the true size of the data region, which the driver never learns. */
  method Mount(d: Disk, base: nat, clusters: nat) returns (rc: int, fs: Fat16?)
    requires d.Valid()
    modifies d`readFaults
    ensures rc == 0 <==> fs != null
    ensures rc == 0 ==>
      && fresh(fs) && fs.disk == d && base < |d.sectors| && MountCode(d.sectors[base]) == 0
      && fs.geo == GeomOf(d.sectors[base], base, clusters)
      && (fs.Mounted() <==> Handled(fs.geo, |d.sectors|))
      && fs.home == d.sectors && Guarded(fs.geo, fs.home, d.trace, fs.since)
    ensures rc != 0 && d.readFaults == old(d.readFaults) ==> base < |d.sectors| && rc == MountCode(d.sectors[base])
  {
    fs := null;
    var bs;
    rc, bs := d.Read(base);
    if rc != 0 {
      return;
    }
    rc := MountCode(bs);
    if rc != 0 {
      return;
    }
    fs := new Fat16(d, GeomOf(bs, base, clusters));
    MountLays(bs, base, clusters, d.sectors);
  }

  // ----- mounting again -----

  /** With a reserved sector at all, the boot sector is not the volume's to write; without one, it is. */
  lemma BootIsOutside(bs: Sector, base: nat, clusters: nat)
    requires MountCode(bs) == 0
    ensures Outside(GeomOf(bs, base, clusters), base) <==> Rd16(bs, 14) > 0
  {
    var g := GeomOf(bs, base, clusters);
    MulMono(0, g.nfats, g.fatsz);
    assert Rd16(bs, 14) == 0 ==> g.fatLba == base < g.rootLba <= g.dataLba <= g.dataLba + g.clusters * g.spc;
  }

  /** With a reserved sector, every image since the mount mounts again, to the same geometry. */
  lemma MountsAgain(base: nat, clusters: nat, home: Image, imgs: seq<Image>, since: nat, k: nat)
    requires base < |home| && MountCode(home[base]) == 0 && Rd16(home[base], 14) > 0
    requires Guarded(GeomOf(home[base], base, clusters), home, imgs, since) && since <= k < |imgs|
    ensures base < |imgs[k]| && MountCode(imgs[k][base]) == 0
    ensures GeomOf(imgs[k][base], base, clusters) == GeomOf(home[base], base, clusters)
  {
    hide MountCode, GeomOf, Outside;
    BootIsOutside(home[base], base, clusters);
    assert SameOutside(GeomOf(home[base], base, clusters), home, imgs[k]);
  }

  /**
   Without one, the FAT starts in the boot sector, where its cells 2 to 255 lie. Cell 7 is always
   free to take, being the reserved count itself; and marking a free cell as taken leaves a
   medium that mounts to the same geometry exactly if it is none of 5, 7 and 9, which are the
   sector size, the reserved count and the number of root entries.
   */
  lemma UnreservedIsLost(bs: Sector, base: nat, clusters: nat, img: Image, c: nat)
    requires MountCode(bs) == 0 && Rd16(bs, 14) == 0 && base < |img| && img[base] == bs
    requires Handled(GeomOf(bs, base, clusters), |img|) && 2 <= c < CELLS_PER_SECTOR
    ensures var g := GeomOf(bs, base, clusters);
      Laid(g, img) && FatSec(g, 0, c) == base && CELLS_PER_SECTOR <= g.fatsz * CELLS_PER_SECTOR
        && Cell(g, img, 0, 7) == 0
    ensures var g := GeomOf(bs, base, clusters);
      Cell(g, img, 0, c) == 0 ==>
        var after := FatSectorWith(g, img, 0, c, 0xFFFF);
        (MountCode(after) == 0 && GeomOf(after, base, clusters) == g <==> c != 5 && c != 7 && c != 9)
  {
    MountLays(bs, base, clusters, img);
  }
}
