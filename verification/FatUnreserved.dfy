/**
 A medium without a reserved sector, on which the FAT begins in the boot sector: it mounts, and
 the first mkdir on it reports success and leaves a medium that does not.
 */
module FatUnreserved {
  import opened Bytes
  import opened Names83
  import opened FatVolume
  import opened FatTree
  import opened FatMount
  import opened FatWrite
  import opened FatStages
  import opened FatMkdir
  import opened FatMkdirPath
  import opened Path83
  import opened FsLayer
  import opened FatRun

  // No reserved sector, 16 root entries, one FAT of one sector; clusters 2 to 4 read as taken.
  function BootSector(): Sector {
    seq(512, i =>
      if 4 <= i < 10 then 0xFF else if i == 12 then 2 else if i == 13 || i == 16 || i == 22 then 1
      else if i == 17 then 16 else if i == 510 then 0x55 else if i == 511 then 0xAA else 0)
  }

  function Medium(): Image {
    [BootSector()] + seq(255, _ => ZeroSector())
  }

  const LAYOUT := Geom(1, 1, 16, 1, 0, 1, 2, 254)

  lemma MediumMounts()
    ensures MountCode(Medium()[0]) == 0 && Rd16(Medium()[0], 14) == 0 && GeomOf(Medium()[0], 0, 254) == LAYOUT
    ensures Laid(LAYOUT, Medium())
  {
  }

  lemma ViewSizes(img: Image)
    requires Laid(LAYOUT, img)
    ensures var v := ViewOf(LAYOUT, img);
      Shaped(v) && |v.fat| == 1 && |v.fat[0]| == 256 && |v.root| == 1 && |v.data| == 254
  {
    ViewIsShaped(LAYOUT, img);
  }

  lemma FatIs(img: Image, c: nat)
    requires Laid(LAYOUT, img) && c < 256
    ensures |img| > 0 && |ViewOf(LAYOUT, img).fat| == 1 && |ViewOf(LAYOUT, img).fat[0]| == 256
    ensures ViewOf(LAYOUT, img).fat[0][c] == Rd16(img[0], 2 * c)
  {
    ViewSizes(img);
    FatSecInside(LAYOUT, img, 0, c);
    assert FatSec(LAYOUT, 0, c) == 0 && ViewOf(LAYOUT, img).fat[0][c] == Cell(LAYOUT, img, 0, c);
  }

  lemma NextFreeIs(f: seq<u16>, i: nat, r: nat)
    requires i <= r < |f| && f[r] == 0 && forall k :: i <= k < r ==> f[k] != 0
    ensures NextFree(f, i) == r
  {
  }

  /** Its volume is an empty one, and cluster 5 is the first that an allocation takes. */
  lemma MediumIsBlank(img: Image)
    requires img == Medium() && Laid(LAYOUT, img)
    ensures Blank(ViewOf(LAYOUT, img)) && HasFree(ViewOf(LAYOUT, img)) && |ViewOf(LAYOUT, img).root| > 0
    ensures NextFree(ViewOf(LAYOUT, img).fat[0], 2) == 5
  {
    hide ViewOf, Rd16, BootSector, FatOk, Laid;
    var v := ViewOf(LAYOUT, img);
    ViewSizes(img);
    RootSectorIs(LAYOUT, img, 0);
    OneCopy(v);
    FatIs(img, 2);
    FatIs(img, 3);
    FatIs(img, 4);
    FatIs(img, 5);
    FirstCells();
    NextFreeIs(v.fat[0], 2, 5);
  }

  lemma OneCopy(v: Volume)
    requires Shaped(v) && |v.fat| == 1 && |v.data| == 254 && |v.fat[0]| == 256
    ensures FatOk(v)
  {
  }

  lemma FirstCells()
    ensures Rd16(BootSector(), 4) != 0 && Rd16(BootSector(), 6) != 0 && Rd16(BootSector(), 8) != 0
    ensures Rd16(BootSector(), 10) == 0
  {
  }

  lemma UpperLeaf(leaf: seq<byte>)
    requires Component(leaf) && leaf != [] && Encode(leaf).Ok?
    ensures Text83(leaf) == Upper(leaf) && Component(Upper(leaf)) && Upper(leaf) != [] && Encode(Upper(leaf)).Ok?
  {
    hide Encode, Norm;
    EncodableIsShort(leaf);
    EncodeIgnoresCase(leaf);
    ComponentsOfLeaf(leaf);
    NormRenders(leaf, PATH_CAP);
    assert UpperAll([leaf]) == [Upper(leaf)];
    RenderSnoc([], Upper(leaf));
    assert [] + [Upper(leaf)] == [Upper(leaf)];
  }

  // With cell 5 marked, the field for the sector size is gone.
  lemma MarkedIsLost(img: Image)
    requires Laid(LAYOUT, img) && Marked(ViewOf(LAYOUT, img), 5)
    ensures |img| > 0 && MountCode(img[0]) != 0
  {
    hide ViewOf, Laid;
    FatIs(img, 5);
  }

  /** A mkdir of any name on this medium: without a disk error it succeeds, and then nothing mounts. */
  method MkdirUnmounts(fs: Fat16, leaf: seq<byte>) returns (rc: int)
    requires fs.Mounted() && fs.geo == LAYOUT && fs.disk.sectors == Medium()
    requires Component(leaf) && leaf != [] && Encode(leaf).Ok?
    modifies fs.disk
    ensures fs.Mounted()
    ensures fs.disk.NoFaultSince(old(fs.disk.readFaults), old(fs.disk.writeFaults)) ==> rc == 0
    ensures rc == 0 ==> |fs.disk.sectors| > 0 && MountCode(fs.disk.sectors[0]) != 0
  {
    hide ViewOf, Laid, WellFormedVolume, Blank, HasFree, CanMkdir, Encode, Norm, MkdirEnds, Landed, SparesAll, Keeps,
         SameEntries, Guarded, Medium, MountCode, Text83, Upper, Component;
    ghost var v := fs.View();
    MediumIsBlank(fs.disk.sectors);
    BlankIsWellFormed(v);
    UpperLeaf(leaf);
    BlankTakesAny(v, Upper(leaf));
    var torn;
    ghost var cat', nc, S;
    rc, torn, cat', nc, S := FsMkdir(fs, leaf, NO_FILES);
    if rc == 0 {
      MarkedIsLost(fs.disk.sectors);
    }
  }
}
