/** `fat16_mkdir_path83`: every image it can leave behind, and what it achieves. */
module FatMkdir {
  import opened Bytes
  import opened Names83
  import opened FatVolume
  import opened FatTree
  import opened FatSteps
  import opened FatInsert
  import opened FatMount
  import opened FatStat
  import opened FatWrite
  import opened FatStages

  // ----- stage 2: the entry in the parent -----

  /**
   What a completed mkdir amounts to: the invariant with one directory more, and what its name
   finds from now on. A name starting with byte 0xE5 never shows.
   */
  ghost predicate Landed(v: Volume, cat: Catalog, w: Volume, cat': Catalog, d: u16, name: Name11, nc: u16) {
    && WellFormedVolume(w, cat')
    && if name[0] == 0xE5 then SameEntries(v, w, cat, cat') && KeepsFiles(v, cat, w, cat')
       else
         && Made(v, cat, w, cat', d, name, nc)
         && Lookup(Entries(w, cat', d), Key(name)) == FoundAfter(v, cat, d, name, DirEntry(name, nc))
  }

  /** A completed mkdir that loses nothing. */
  ghost predicate Outcome(v: Volume, cat: Catalog, w: Volume, cat': Catalog, d: u16, name: Name11, nc: u16) {
    Landed(v, cat, w, cat', d, name, nc) && Keeps(v, cat, w, cat')
  }

  lemma InsertOutcome(v: Volume, cat: Catalog, w: Volume, d: u16, j: nat, i: nat, name: Name11, nc: u16)
    returns (cat': Catalog)
    requires InsertStepReady(v, cat, w, d, j, i, name, nc) && HoldsNewDir(v, d, nc)
    ensures Landed(v, cat, w, cat', d, name, nc) && Touched(v, w, {}) && Mirrored(w)
    ensures SparedIn(v, cat, d, name) ==> Keeps(v, cat, w, cat')
  {
    hide HoldsNewDir, Made, SlotWritten, Keeps, SparedIn, DirOk, FatOk, ChainsOk, Entries, Key;
    WrittenTouches(v, cat, w, d, j, i, name, nc);
    if name[0] == 0xE5 {
      DeadInsertStep(v, cat, w, d, j, i, name, nc);
      DeadInsertFiles(v, cat, w, d, j, i, name, nc);
      cat' := cat;
    } else {
      InsertStep(v, cat, w, d, j, i, name, nc);
      InsertLookups(v, cat, w, d, j, i, name, nc, Key(name));
      if SparedIn(v, cat, d, name) {
        InsertKeeps(v, cat, w, d, j, i, name, nc);
      }
      cat' := WithDir(cat, d, name, nc);
    }
  }

  lemma DeadInsertFiles(v: Volume, cat: Catalog, w: Volume, d: u16, j: nat, i: nat, name: Name11, nc: u16)
    requires InsertStepReady(v, cat, w, d, j, i, name, nc)
    ensures KeepsFiles(v, cat, w, cat)
  {
    hide InsertStepReady, KeepsFiles;
    InsertFiles(v, cat, w, d, j, i, name, nc);
  }

  /**
   A name that is not spared is lost: the old entry is still in the listing, but no catalog
   makes it findable again.
   */
  lemma ShadowedIsLost(v: Volume, cat: Catalog, w: Volume, cat': Catalog, d: u16, name: Name11, nc: u16, cat2: Catalog)
    requires WellFormedVolume(v, cat) && IsDirOf(cat, d) && Landed(v, cat, w, cat', d, name, nc)
    requires !SparedIn(v, cat, d, name)
    ensures !Keeps(v, cat, w, cat2)
  {
    hide LiveEntries, Slots, Secs, Key, FatOk, KeepsFiles, Inserted;
    OldIsOther(v, cat, d, name, nc);
    assert Lookup(Entries(w, cat', d), Key(name)) == Some(DirEntry(name, nc));
    if Keeps(v, cat, w, cat2) {
      SameListing(v, cat, w, cat', cat2, d);
    }
  }

  // What a name found before is not the new directory's entry.
  lemma OldIsOther(v: Volume, cat: Catalog, d: u16, name: Name11, nc: u16)
    requires WellFormedVolume(v, cat) && IsDirOf(cat, d) && nc !in cat.dirs && nc >= 2
    ensures Lookup(Entries(v, cat, d), Key(name)) != Some(DirEntry(name, nc))
  {
    hide LiveEntries, Slots, Key, FatOk;
    if Lookup(Entries(v, cat, d), Key(name)).Some? {
      LookupMember(Entries(v, cat, d), Key(name));
      assert DirOk(v, cat, d);
    }
  }

  // Two catalogs of one volume agree on a directory both have.
  lemma SameListing(v: Volume, cat: Catalog, w: Volume, cat1: Catalog, cat2: Catalog, d: u16)
    requires WellFormedVolume(v, cat) && IsDirOf(cat, d) && WellFormedVolume(w, cat1) && cat.dirs <= cat1.dirs
    requires KeepsChains(cat, w, cat2)
    ensures Entries(w, cat1, d) == Entries(w, cat2, d)
  {
    hide LiveEntries, Slots, Secs, DirOk, FatOk;
    if d != 0 {
      assert d in cat.chains && IsChain(v, cat.chains[d]) && cat.chains[d][0] == d;
      assert IsChain(w, cat2.chains[d]) && cat2.chains[d][0] == d;
      ChainIsUnique(w, cat1.chains[d], cat2.chains[d]);
    }
  }

  lemma WrittenTouches(v: Volume, cat: Catalog, w: Volume, d: u16, j: nat, i: nat, name: Name11, nc: u16)
    requires InsertStepReady(v, cat, w, d, j, i, name, nc)
    ensures Touched(v, w, {})
  {
    hide DirOk, Secs, Slots;
  }

  // Slot i of sector j of directory d is the first free one, and lies in sector lba.
  ghost predicate SlotPlace(g: Geom, v: Volume, cat: Catalog, d: u16, lba: nat, j: nat, i: nat, m: nat, s: nat) {
    && i < 16 && FirstFree(Slots(DirSecs(v, cat, d)), j * 16 + i)
    && if d == 0 then j < |v.root| && lba == g.rootLba + j
       else d in cat.dirs && d in cat.chains && m < |cat.chains[d]| && s < g.spc
            && cat.chains[d][m] >= 2 && lba == DataSec(g, cat.chains[d][m], s) && j == Place(m, g.spc, s)
  }

  function Rewritten(img: Image, lba: nat, i: nat, s: Slot): Image
    requires lba < |img| && i < 16
  {
    img[lba := PutSlot(img[lba], i, s)]
  }

  lemma RootSlotWritten(g: Geom, img: Image, cat: Catalog, lba: nat, j: nat, i: nat, s: Slot)
    requires Laid(g, img) && WellFormedVolume(ViewOf(g, img), cat)
      && SlotPlace(g, ViewOf(g, img), cat, 0, lba, j, i, 0, 0)
    ensures lba < |img| && !Outside(g, lba) && Laid(g, Rewritten(img, lba, i, s))
    ensures SlotWritten(ViewOf(g, img), cat, ViewOf(g, Rewritten(img, lba, i, s)), 0, j, i, s)
  {
    hide WellFormedVolume, Slots, PutSlot, FirstFree, Outside;
    RootIsInside(g, img, j);
    ViewAfterRootWrite(g, img, j, PutSlot(ViewOf(g, img).root[j], i, s));
    RootSectorIs(g, img, j);
    RootWritten(ViewOf(g, img), cat, j, PutSlot(ViewOf(g, img).root[j], i, s));
  }

  lemma RootIsInside(g: Geom, img: Image, j: nat)
    requires Laid(g, img) && j < |ViewOf(g, img).root|
    ensures !Outside(g, g.rootLba + j)
  {
  }

  lemma ChainSlotWritten(g: Geom, img: Image, cat: Catalog, d: u16, lba: nat, j: nat, i: nat, m: nat, n: nat, s: Slot)
    requires Laid(g, img) && WellFormedVolume(ViewOf(g, img), cat) && d in cat.dirs
    requires SlotPlace(g, ViewOf(g, img), cat, d, lba, j, i, m, n)
    ensures lba < |img| && !Outside(g, lba) && Laid(g, Rewritten(img, lba, i, s))
    ensures SlotWritten(ViewOf(g, img), cat, ViewOf(g, Rewritten(img, lba, i, s)), d, j, i, s)
  {
    hide Slots, PutSlot, FirstFree, Secs, DirOk, ViewOf, FatOk, Laid, DirWritten, Outside, DataSec;
    var v := ViewOf(g, img);
    var cs := cat.chains[d];
    RootIsNot(v, cat);
    ViewIsShaped(g, img);
    ChainSector(v, cs, g.spc, m, n);
    DataSectorIs(g, img, cs[m], n);
    DataSecIsInside(g, img, cs[m], n);
    var sec := PutSlot(img[lba], i, s);
    ViewAfterDataWrite(g, img, cs[m], n, sec);
    ChainWritten(v, cat, d, m, n, sec);
    DirWrittenInRange(v, cat, SetData(v, cs[m], n, sec), d, j, sec);
  }

  lemma DirWrittenInRange(v: Volume, cat: Catalog, w: Volume, d: u16, j: nat, sec: Sector)
    requires DirWritten(v, cat, w, d, j, sec) && d != 0 && d in cat.chains
    ensures j < |DirSecs(v, cat, d)| && DirSecs(v, cat, d) == Secs(v.data, cat.chains[d])
  {
  }

  lemma RootIsNot(v: Volume, cat: Catalog)
    requires WellFormedVolume(v, cat)
    ensures forall d <- cat.dirs :: d != 0 && d in cat.chains && IsChain(v, cat.chains[d])
  {
    forall d <- cat.dirs
      ensures d != 0
    {
      assert IsChain(v, cat.chains[d]);
    }
  }

  /** The last write of a mkdir. */
  method PutEntry(fs: Fat16, lba: nat, ent: nat, name: Name11, nc: u16,
                  ghost cat: Catalog, ghost d: u16, ghost j: nat, ghost m: nat, ghost s: nat)
    returns (rc: int, ghost cat': Catalog)
    requires fs.Mounted() && LoneCluster(fs.View(), cat, nc) && HoldsNewDir(fs.View(), d, nc) && IsDirOf(cat, d)
    requires SlotPlace(fs.geo, fs.View(), cat, d, lba, j, ent, m, s)
    modifies fs.disk
    ensures fs.Mounted() && rc <= 0
    ensures fs.disk.readFaults >= old(fs.disk.readFaults) && fs.disk.writeFaults >= old(fs.disk.writeFaults)
    ensures rc == 0 <==> fs.disk.NoFaultSince(old(fs.disk.readFaults), old(fs.disk.writeFaults))
    ensures rc != 0 ==> fs.disk.sectors == old(fs.disk.sectors) && fs.disk.trace == old(fs.disk.trace) && cat' == cat
    ensures rc == 0 ==> fs.disk.trace == old(fs.disk.trace) + [fs.disk.sectors] && fs.View().fat == old(fs.View()).fat
    ensures rc == 0 && name[0] != 0 ==> Landed(old(fs.View()), cat, fs.View(), cat', d, name, nc)
    ensures rc == 0 && name[0] != 0 && SparedIn(old(fs.View()), cat, d, name) ==>
      && Keeps(old(fs.View()), cat, fs.View(), cat')
      && Survives(fs.geo, old(fs.View()), cat, fs.disk.sectors, {})
  {
    hide ViewOf, WellFormedVolume, Keeps, HoldsNewDir, SlotPlace, SlotWritten, DirSlot, PutSlot, Landed, Laid,
         Entries, Key, Touched, SparedIn, Mirrored, Outside, Guarded;
    ghost var v, img := fs.View(), fs.disk.sectors;
    ghost var slot := DirSlot(name, nc);
    SlotLanding(fs.geo, img, cat, d, lba, j, ent, m, s, slot);
    cat' := cat;
    rc := WriteDirent(fs, lba, ent, DirSlot(name, nc));
    if rc == 0 {
      WrittenFat(v, cat, fs.View(), d, j, ent, slot);
      if name[0] != 0 {
        cat' := InsertOutcome(v, cat, fs.View(), d, j, ent, name, nc);
        if SparedIn(v, cat, d, name) {
          LandedIsSound(v, cat, fs.View(), cat', d, name, nc);
          SurvivesAt(fs.geo, v, cat, fs.disk.sectors, cat', {});
        }
      }
    }
  }

  lemma WrittenFat(v: Volume, cat: Catalog, w: Volume, d: u16, j: nat, i: nat, s: Slot)
    requires SlotWritten(v, cat, w, d, j, i, s)
    ensures w.fat == v.fat
  {
    hide PutSlot;
  }

  // The cluster has an end mark.
  predicate Marked(v: Volume, c: u16) {
    |v.fat| > 0 && c < |v.fat[0]| && v.fat[0][c] == 0xFFFF
  }

  lemma LandedIsSound(v: Volume, cat: Catalog, w: Volume, cat': Catalog, d: u16, name: Name11, nc: u16)
    requires Landed(v, cat, w, cat', d, name, nc)
    ensures WellFormedVolume(w, cat') && Sound(w, cat')
  {
    hide WellFormedVolume, Made, Entries, Key;
  }

  lemma SlotLanding(g: Geom, img: Image, cat: Catalog, d: u16, lba: nat, j: nat, i: nat, m: nat, n: nat, s: Slot)
    requires Laid(g, img) && WellFormedVolume(ViewOf(g, img), cat) && IsDirOf(cat, d)
    requires SlotPlace(g, ViewOf(g, img), cat, d, lba, j, i, m, n)
    ensures i < 16 && lba < |img| && !Outside(g, lba) && Laid(g, Rewritten(img, lba, i, s))
    ensures SlotWritten(ViewOf(g, img), cat, ViewOf(g, Rewritten(img, lba, i, s)), d, j, i, s)
  {
    hide WellFormedVolume, ViewOf, SlotWritten, Laid, PutSlot, Slots, FirstFree;
    if d == 0 {
      RootSlotWritten(g, img, cat, lba, j, i, s);
    } else {
      ChainSlotWritten(g, img, cat, d, lba, j, i, m, n, s);
    }
  }

  // ----- a full parent: one more cluster -----

  lemma LinkTouches(v: Volume, cat: Catalog, p: u16, ext: u16, n: nat, w: Volume)
    requires LinkReady(v, cat, p, ext) && p in cat.chains && cat.chains[p] != [] && LastOf(cat, p) < |v.fat[0]|
    requires Linked(v, w, n, LastOf(cat, p), ext)
    ensures Touched(v, w, {})
  {
    hide DirOk, Full, Secs, Slots;
    ChainMemberIsLinked(v, cat, p, |cat.chains[p]| - 1);
    SetCopiesTouches(v, n, LastOf(cat, p), ext);
  }

  // All that is missing once the cluster is linked are its zeros.
  lemma LinkPending(v: Volume, cat: Catalog, p: u16, ext: u16, n: nat, w: Volume)
    requires LinkReady(v, cat, p, ext) && p in cat.chains && cat.chains[p] != [] && LastOf(cat, p) < |v.fat[0]|
    requires Linked(v, w, n, LastOf(cat, p), ext)
    ensures Pending(w, Extended(cat, p, ext), p)
  {
    hide DirOk, FatOk, ChainsOk, Secs, Slots, Full, SetCopies, WellFormedVolume, IsChain, LiveEntries;
    assert Shaped(v) && Unchained(cat, ext) && 2 <= ext < |w.data| + 2 && p != 0 by { ReadyShape(v, cat, p, ext, w); }
    var cs := cat.chains[p];
    assert (cs + [ext])[..|cs|] == cs;
    SecsFrame(v.data, w.data, cs, ext);
    assert Linked(v, Cleared(w, ext), n, LastOf(cat, p), ext) && ZeroCluster(Cleared(w, ext), ext);
    LinkDone(v, cat, p, ext, n, Cleared(w, ext));
  }

  lemma ReadyShape(v: Volume, cat: Catalog, p: u16, ext: u16, w: Volume)
    requires LinkReady(v, cat, p, ext) && |w.data| == |v.data|
    ensures Shaped(v) && Unchained(cat, ext) && 2 <= ext < |w.data| + 2 && p != 0
  {
    DirLast(v, cat, p);
  }

  /** Even before the linked cluster is zeroed, nothing stored is lost. */
  lemma LinkedSurvives(g: Geom, v: Volume, cat: Catalog, p: u16, ext: u16, n: nat, img: Image)
    requires LinkReady(v, cat, p, ext) && p in cat.chains && cat.chains[p] != [] && LastOf(cat, p) < |v.fat[0]|
    requires Laid(g, img) && Linked(v, ViewOf(g, img), n, LastOf(cat, p), ext)
    ensures Survives(g, v, cat, img, {})
  {
    hide ViewOf, Laid, DirOk, ChainsOk, FatOk, Full, Linked, Keeps, Touched, Pending;
    LinkStep(v, cat, p, ext, n, ViewOf(g, img));
    LinkTouches(v, cat, p, ext, n, ViewOf(g, img));
    ViewIsShaped(g, img);
    LinkFatOk(v, ViewOf(g, img), n, LastOf(cat, p), ext);
    LinkPending(v, cat, p, ext, n, ViewOf(g, img));
    SurvivesAt(g, v, cat, img, Extended(cat, p, ext), {});
  }

  lemma DirLast(v: Volume, cat: Catalog, p: u16)
    requires WellFormedVolume(v, cat) && p in cat.dirs
    ensures p in cat.chains && cat.chains[p] != [] && IsChain(v, cat.chains[p])
    ensures 2 <= LastOf(cat, p) < |v.fat[0]| && cat.chains[p][0] == p >= 2
  {
    var cs := cat.chains[p];
    assert IsChain(v, cs);
    assert Clus(v, cs[|cs| - 1]) && Clus(v, cs[0]);
  }

  lemma LinkImage(g: Geom, v: Volume, cat: Catalog, p: u16, ext: u16, img: Image)
    requires LinkReady(v, cat, p, ext) && p in cat.chains && cat.chains[p] != [] && LastOf(cat, p) < |v.fat[0]|
    requires FatPhase(g, v, img, LastOf(cat, p), ext)
    ensures Survives(g, v, cat, img, {})
  {
    hide ViewOf, Laid, DirOk, FatOk, ChainsOk, Full, SetCopies;
    var n :| 1 <= n <= |v.fat| && ViewOf(g, img) == SetCopies(v, n, LastOf(cat, p), ext);
    LinkedCopies(v, n, LastOf(cat, p), ext, ViewOf(g, img), ext);
    LinkedSurvives(g, v, cat, p, ext, n, img);
  }

  lemma LinkedCopies(v: Volume, n: nat, last: u16, ext: u16, w: Volume, c: u16)
    requires Shaped(v) && last < |v.fat[0]| && 1 <= n <= |v.fat|
    requires w == SetCopies(v, n, last, ext) || OnlyCluster(SetCopies(v, n, last, ext), w, ext)
    ensures Linked(v, w, n, last, ext)
  {
  }

  lemma ZeroImage(g: Geom, v: Volume, cat: Catalog, p: u16, ext: u16, img: Image)
    requires LinkReady(v, cat, p, ext) && p in cat.chains && cat.chains[p] != [] && LastOf(cat, p) < |v.fat[0]|
    requires ScratchPhase(g, SetCopies(v, |v.fat|, LastOf(cat, p), ext), img, ext)
    ensures Survives(g, v, cat, img, {})
  {
    hide ViewOf, Laid, DirOk, FatOk, ChainsOk, Full, SetCopies, OnlyCluster;
    LinkedCopies(v, |v.fat|, LastOf(cat, p), ext, ViewOf(g, img), ext);
    LinkedSurvives(g, v, cat, p, ext, |v.fat|, img);
  }

  lemma ExtensionDone(v: Volume, cat: Catalog, p: u16, ext: u16, w: Volume)
    requires LinkReady(v, cat, p, ext) && p in cat.chains && cat.chains[p] != [] && LastOf(cat, p) < |v.fat[0]|
    requires Linked(v, w, |v.fat|, LastOf(cat, p), ext) && ZeroCluster(w, ext)
    ensures Reached(v, cat, w, Extended(cat, p, ext), {})
  {
    hide ViewOf, Laid, LinkReady, Linked, Keeps, Touched, WellFormedVolume, Entries;
    LinkStep(v, cat, p, ext, |v.fat|, w);
    LinkTouches(v, cat, p, ext, |v.fat|, w);
    LinkDone(v, cat, p, ext, |v.fat|, w);
  }

  lemma StillLone(v: Volume, cat: Catalog, p: u16, ext: u16, w: Volume, nc: u16)
    requires LinkReady(v, cat, p, ext) && p in cat.chains && cat.chains[p] != [] && LastOf(cat, p) < |v.fat[0]|
    requires Linked(v, w, |v.fat|, LastOf(cat, p), ext) && WellFormedVolume(w, Extended(cat, p, ext))
    requires LoneCluster(v, cat, nc) && HoldsNewDir(v, p, nc) && nc != ext
    ensures LoneCluster(w, Extended(cat, p, ext), nc) && HoldsNewDir(w, p, nc)
  {
    hide DirOk, Full, Secs, Slots, NewDir;
    assert LastOf(cat, p) in cat.chains[p];
  }

  lemma FirstSlotOfExtension(g: Geom, v: Volume, cat: Catalog, p: u16, ext: u16, w: Volume)
    requires LinkReady(v, cat, p, ext) && p in cat.chains && IsChain(v, cat.chains[p]) && p != 0 && ext >= 2
      && g.spc > 0
    requires forall k :: 0 <= k < |v.data| ==> |v.data[k]| == g.spc
    requires DataOnly(v.data, w.data, ext) && w.root == v.root && ZeroCluster(w, ext)
    ensures SlotPlace(g, w, Extended(cat, p, ext), p, DataSec(g, ext, 0),
                      Place(|cat.chains[p]|, g.spc, 0), 0, |cat.chains[p]|, 0)
    ensures forall name :: SparedIn(w, Extended(cat, p, ext), p, name)
  {
    hide Slots, Secs, LiveEntries, DirOk, FatOk, ChainsOk, FirstFree, Place, Spared;
    var cs := cat.chains[p];
    ChainSector(v, cs, g.spc, |cs| - 1, 0);
    NextPlace(|cs| - 1, g.spc);
    LinkEntries(v, cat, p, ext, w, p);
    FreeAtEnd(DirSecs(v, cat, p), Cluster(w.data, ext));
    forall name
      ensures SparedIn(w, Extended(cat, p, ext), p, name)
    {
      SparedAtEnd(DirSecs(v, cat, p), Cluster(w.data, ext), name);
    }
  }

  lemma FreeAtEnd(a: seq<Sector>, b: seq<Sector>)
    requires Full(Slots(a)) && AllZero(b) && |b| > 0
    ensures FirstFree(Slots(a + b), |a| * 16)
  {
    SlotsConcat(a, b);
    ZeroSlots(b);
  }

  // In a directory that was full, every name lies before the new cluster.
  lemma SparedAtEnd(a: seq<Sector>, b: seq<Sector>, name: Name11)
    requires Full(Slots(a)) && AllZero(b) && |b| > 0
    ensures Spared(Slots(a + b), name)
  {
    hide LiveEntries, Key, Slots;
    FreeAtEnd(a, b);
    SlotsConcat(a, b);
    ZeroSlots(b);
    assert |Slots(a)| == |a| * 16;
    LiveConcat(Slots(a), Slots(b));
    EndedHasNoEntries(Slots(b));
    assert LiveEntries(Slots(a)) + [] == LiveEntries(Slots(a));
    forall k: nat | FirstFree(Slots(a + b), k)
      ensures Slots(a + b)[..k] == Slots(a)
    {
      assert k == |a| * 16;
    }
  }

  lemma FullIsSpared(slots: seq<Slot>, name: Name11)
    requires Full(slots)
    ensures Spared(slots, name)
  {
  }

  lemma TakenIsLinkReady(v: Volume, cat: Catalog, p: u16, v1: Volume, ext: u16, nc: u16)
    requires LoneCluster(v, cat, nc) && HoldsNewDir(v, p, nc) && p in cat.dirs && Full(Slots(DirSecs(v, cat, p)))
    requires LoneCluster(v1, cat, ext) && v1.data == v.data && v1.root == v.root
    requires ext < |v.fat[0]| && v.fat[0][ext] == 0 && v1.fat[0] == v.fat[0][ext := 0xFFFF]
    ensures LinkReady(v1, cat, p, ext) && nc != ext && LoneCluster(v1, cat, nc) && HoldsNewDir(v1, p, nc)
  {
    hide DirOk, FatOk, ChainsOk, Secs, Slots, NewDir;
  }

  // Linking `ext` in behind the last cluster and zeroing it.
  method LinkAndZero(fs: Fat16, p: u16, last: u16, ext: u16, ghost cat: Catalog) returns (rc: int)
    requires fs.Mounted() && LinkReady(fs.View(), cat, p, ext) && p in cat.chains && cat.chains[p] != []
    requires last == LastOf(cat, p) < |fs.View().fat[0]| == fs.geo.fatsz * CELLS_PER_SECTOR
    requires 2 <= ext < fs.geo.clusters + 2 && fs.geo.nfats == |fs.View().fat|
    modifies fs.disk
    ensures fs.Mounted() && rc <= 0 && old(fs.disk.trace) <= fs.disk.trace
    ensures fs.disk.readFaults >= old(fs.disk.readFaults) && fs.disk.writeFaults >= old(fs.disk.writeFaults)
    ensures rc == 0 <==> fs.disk.NoFaultSince(old(fs.disk.readFaults), old(fs.disk.writeFaults))
    ensures AllSurvive(fs.geo, old(fs.View()), cat, fs.disk.trace, |old(fs.disk.trace)|, {})
    ensures Survives(fs.geo, old(fs.View()), cat, fs.disk.sectors, {})
    ensures rc == 0 ==>
      Shaped(old(fs.View())) && Linked(old(fs.View()), fs.View(), fs.geo.nfats, last, ext)
        && ZeroCluster(fs.View(), ext)
  {
    hide ViewOf, Laid, DirOk, FatOk, ChainsOk, Full, SetCopies, Keeps, Survives, FatPhase, ScratchPhase, OnlyCluster,
         Linked, WithCluster, ZeroCluster, Touched;
    ghost var v, start := fs.View(), |fs.disk.trace|;
    KeepsItself(v, cat);
    SurvivesAt(fs.geo, v, cat, fs.disk.sectors, cat, {});
    ViewIsShaped(fs.geo, fs.disk.sectors);
    ghost var n;
    rc, n := SetFatEntry(fs, last, ext);
    ghost var midTrace := fs.disk.trace;
    CopiesSurvive(fs.geo, v, cat, p, ext, fs.disk.sectors, n);
    forall k | start <= k < |fs.disk.trace|
      ensures Survives(fs.geo, v, cat, fs.disk.trace[k], {})
    {
      LinkImage(fs.geo, v, cat, p, ext, fs.disk.trace[k]);
    }
    if rc != 0 {
      return;
    }
    ghost var v1, zeros := fs.View(), seq(fs.geo.spc, _ => ZeroSector());
    ViewIsShaped(fs.geo, fs.disk.sectors);
    assert Partly(v1.data[ext - 2], zeros, 0) == v1.data[ext - 2];
    SameCluster(v1, ext);
    rc := ZeroSectors(fs, ext, 0, v1, zeros);
    ZeroImage(fs.geo, v, cat, p, ext, fs.disk.sectors);
    forall k | start <= k < |fs.disk.trace|
      ensures Survives(fs.geo, v, cat, fs.disk.trace[k], {})
    {
      if k < |midTrace| {
        assert fs.disk.trace[k] == midTrace[k];
      } else {
        ZeroImage(fs.geo, v, cat, p, ext, fs.disk.trace[k]);
      }
    }
    if rc == 0 {
      ZeroedIsLinked(v, |v.fat|, last, ext, fs.View(), zeros);
    }
  }

  lemma ZeroedIsLinked(v: Volume, n: nat, last: u16, ext: u16, w: Volume, zeros: seq<Sector>)
    requires Shaped(v) && last < |v.fat[0]| && 1 <= n <= |v.fat| && 2 <= ext < |v.data| + 2
    requires AllZero(zeros) && |zeros| == |v.data[ext - 2]| && w == WithCluster(SetCopies(v, n, last, ext), ext, zeros)
    ensures Linked(v, w, n, last, ext) && ZeroCluster(w, ext)
  {
  }

  lemma CopiesSurvive(g: Geom, v: Volume, cat: Catalog, p: u16, ext: u16, img: Image, n: nat)
    requires LinkReady(v, cat, p, ext) && p in cat.chains && cat.chains[p] != [] && LastOf(cat, p) < |v.fat[0]|
    requires Laid(g, img) && n <= |v.fat| && ViewOf(g, img) == SetCopies(v, n, LastOf(cat, p), ext)
    ensures Survives(g, v, cat, img, {})
  {
    hide ViewOf, Laid, DirOk, FatOk, ChainsOk, Full, Keeps, Survives, Touched, SetCopies;
    if n == 0 {
      SetCopiesNone(v, LastOf(cat, p), ext);
      KeepsItself(v, cat);
      SurvivesAt(g, v, cat, img, cat, {});
    } else {
      LinkedCopies(v, n, LastOf(cat, p), ext, ViewOf(g, img), ext);
      LinkedSurvives(g, v, cat, p, ext, n, img);
    }
  }

  /**
   A full parent directory gets one more, zeroed, cluster. `torn` says that the run stopped
   after the first write of a link, so that zeros may be missing.
   */
  method ExtendDir(fs: Fat16, p: u16, last: u16, nc: u16, ghost cat: Catalog)
    returns (rc: int, torn: bool, ext: u16, ghost cat1: Catalog, ghost S: set<u16>)
    requires fs.Mounted() && LoneCluster(fs.View(), cat, nc) && HoldsNewDir(fs.View(), p, nc)
    requires p in cat.dirs && Full(Slots(DirSecs(fs.View(), cat, p)))
    requires p in cat.chains && cat.chains[p] != [] && last == LastOf(cat, p)
    modifies fs.disk
    ensures fs.Mounted() && rc <= 0 && old(fs.disk.trace) <= fs.disk.trace && |S| <= 1
    ensures fs.disk.readFaults >= old(fs.disk.readFaults) && fs.disk.writeFaults >= old(fs.disk.writeFaults)
    ensures rc == 0 <==>
      HasFree(old(fs.View())) && fs.disk.NoFaultSince(old(fs.disk.readFaults), old(fs.disk.writeFaults))
    ensures !HasFree(old(fs.View())) && fs.disk.NoFaultSince(old(fs.disk.readFaults), old(fs.disk.writeFaults)) ==>
      rc == -3
    ensures AllSurvive(fs.geo, old(fs.View()), cat, fs.disk.trace, |old(fs.disk.trace)|, S)
    ensures Survives(fs.geo, old(fs.View()), cat, fs.disk.sectors, S)
    ensures torn ==> rc != 0 && !fs.disk.NoFaultSince(old(fs.disk.readFaults), old(fs.disk.writeFaults))
    ensures rc != 0 && !torn ==> Reached(old(fs.View()), cat, fs.View(), cat, S)
    ensures rc == 0 ==>
      Reached(old(fs.View()), cat, fs.View(), cat1, S) && LoneCluster(fs.View(), cat1, nc)
        && HoldsNewDir(fs.View(), p, nc)
      && ext >= 2 && p in cat1.dirs && SlotPlace(fs.geo, fs.View(), cat1, p, DataSec(fs.geo, ext, 0),
                   Place(|cat.chains[p]|, fs.geo.spc, 0), 0, |cat.chains[p]|, 0)
    ensures rc == 0 ==> forall name :: SparedIn(fs.View(), cat1, p, name)
  {
    hide ViewOf, Laid, DirOk, FatOk, ChainsOk, Full, Keeps, Survives, AllSurvive, Linked, ZeroCluster, Touched,
         SparedIn, Reached, HoldsNewDir, SlotPlace, IsChain;
    ghost var v, start := fs.View(), |fs.disk.trace|;
    ViewIsShaped(fs.geo, fs.disk.sectors);
    DirLast(v, cat, p);
    cat1, torn := cat, false;
    rc, ext, S := TakeCluster(fs, cat);
    if rc != 0 {
      return;
    }
    ghost var v1, midTrace := fs.View(), fs.disk.trace;
    ViewIsShaped(fs.geo, fs.disk.sectors);
    LoneIsCluster(fs.geo, fs.disk.sectors, cat, ext);
    TakenIsLinkReady(v, cat, p, v1, ext, nc);
    rc := LinkAndZero(fs, p, last, ext, cat);
    torn := rc != 0;
    assert fs.disk.trace[..|midTrace|] == midTrace && S + {} == S;
    AllSurviveFrom(fs.geo, v, cat, v1, cat, fs.disk.trace, start, |midTrace|, S, {});
    ReachedSurvives(fs.geo, v, cat, v1, cat, fs.disk.sectors, S, {});
    if rc == 0 {
      cat1 := Extended(cat, p, ext);
      ExtensionDone(v1, cat, p, ext, fs.View());
      ReachedTrans(v, cat, v1, cat, fs.View(), cat1, S, {});
      Grown(fs.geo, v1, cat, p, ext, fs.View(), nc);
    }
  }

  lemma Grown(g: Geom, v: Volume, cat: Catalog, p: u16, ext: u16, w: Volume, nc: u16)
    requires LinkReady(v, cat, p, ext) && p in cat.chains && cat.chains[p] != [] && LastOf(cat, p) < |v.fat[0]|
    requires Linked(v, w, |v.fat|, LastOf(cat, p), ext) && ZeroCluster(w, ext)
    requires Reached(v, cat, w, Extended(cat, p, ext), {})
    requires forall k :: 0 <= k < |v.data| ==> |v.data[k]| == g.spc
    requires LoneCluster(v, cat, nc) && HoldsNewDir(v, p, nc) && nc != ext && g.spc > 0
    ensures LoneCluster(w, Extended(cat, p, ext), nc) && HoldsNewDir(w, p, nc) && ext >= 2
    ensures SlotPlace(g, w, Extended(cat, p, ext), p, DataSec(g, ext, 0),
                      Place(|cat.chains[p]|, g.spc, 0), 0, |cat.chains[p]|, 0)
    ensures forall name :: SparedIn(w, Extended(cat, p, ext), p, name)
  {
    hide DirOk, FatOk, Full, Keeps, Touched, SameEntries, HoldsNewDir, SlotPlace, ZeroCluster, SparedIn;
    DirLast(v, cat, p);
    StillLone(v, cat, p, ext, w, nc);
    FirstSlotOfExtension(g, v, cat, p, ext, w);
  }

  // ----- both stages -----

  // The name is spared in the volume reached exactly when it is in the one started from.
  ghost predicate SameSpared(v: Volume, cat: Catalog, v1: Volume, cat1: Catalog, d: u16, name: Name11) {
    SparedIn(v1, cat1, d, name) <==> SparedIn(v, cat, d, name)
  }

  lemma LandedFrom(v: Volume, cat: Catalog, v1: Volume, cat1: Catalog, S: set<u16>,
                   w: Volume, cat2: Catalog, d: u16, name: Name11, nc: u16)
    requires Reached(v, cat, v1, cat1, S) && Landed(v1, cat1, w, cat2, d, name, nc) && IsDirOf(cat, d)
    requires SameSpared(v, cat, v1, cat1, d, name)
    ensures Landed(v, cat, w, cat2, d, name, nc)
    ensures Keeps(v1, cat1, w, cat2) ==> Keeps(v, cat, w, cat2)
  {
    hide WellFormedVolume, Entries, Inserted, KeepsDirs, KeepsChains, Touched, IsChain, SparedIn, Key;
    if Keeps(v1, cat1, w, cat2) {
      KeepsTransitive(v, cat, v1, cat1, w, cat2);
    }
    assert KeepsFiles(v, cat, w, cat2);
  }

  lemma EncodeFirstByte(s: seq<byte>)
    requires Component(s) && Encode(s).Ok?
    ensures Encode(s).name[0] != 0
  {
    var b := StemEnd(s, 0);
    assert b > 0 ==> !EndsName(s[0]) && Pad(Upper(s[..b]), 8)[0] == Upc(s[0]);
  }

  // A second cluster is free besides the one a first allocation takes.
  ghost predicate HasTwoFree(v: Volume) {
    HasFree(v) && NextFree(v.fat[0][NextFree(v.fat[0], 2) := 0xFFFF], 2) < |v.fat[0]|
  }

  // The parent can take an entry: it has a free slot, or is a chain that can grow.
  ghost predicate HasRoom(v: Volume, cat: Catalog, isRoot: bool, pc: u16) {
    if isRoot then !Full(Slots(v.root))
    else pc in cat.dirs && (!Full(Slots(DirSecs(v, cat, pc))) || HasTwoFree(v))
  }

  // No entry of that name is in the parent yet.
  ghost predicate Fresh(v: Volume, cat: Catalog, isRoot: bool, pc: u16, leaf: seq<byte>) {
    Encode(leaf).Ok? && (isRoot || pc in cat.dirs) ==>
      Lookup(Entries(v, cat, if isRoot then 0 else pc), Key(Encode(leaf).name)).None?
  }

  /**
   How a mkdir ends. If it fails, every image survives. If it succeeds, every image but the
   last does; the last holds the new directory, and survives exactly when the name is spared.
   */
  ghost predicate MkdirEnds(g: Geom, v: Volume, cat: Catalog, imgs: seq<Image>, from: nat, S: set<u16>, rc: int,
                            cat': Catalog, d: u16, name: Name11, nc: u16) {
    && |imgs| > 0
    && var img := imgs[|imgs| - 1];
       if rc != 0 then AllSurvive(g, v, cat, imgs, from, S) && Survives(g, v, cat, img, S)
       else
         && Laid(g, img) && AllSurvive(g, v, cat, imgs[..|imgs| - 1], from, S)
         && Landed(v, cat, ViewOf(g, img), cat', d, name, nc)
         && (Survives(g, v, cat, img, S) <==> SparedIn(v, cat, d, name))
         && (SparedIn(v, cat, d, name) ==> Keeps(v, cat, ViewOf(g, img), cat'))
  }

  lemma EndsEarly(g: Geom, v: Volume, cat: Catalog, imgs: seq<Image>, from: nat, S: set<u16>, rc: int,
                  cat': Catalog, d: u16, name: Name11, nc: u16)
    requires rc != 0 && |imgs| > 0 && AllSurvive(g, v, cat, imgs, from, S) && Survives(g, v, cat, imgs[|imgs| - 1], S)
    ensures MkdirEnds(g, v, cat, imgs, from, S, rc, cat', d, name, nc)
  {
  }

  lemma SameSecsSpared(v: Volume, w: Volume, cat: Catalog, d: u16, name: Name11)
    requires SameDirSecs(v, w, cat) && IsDirOf(cat, d)
    ensures SameSpared(v, cat, w, cat, d, name)
  {
  }

  lemma LastWrite(g: Geom, v: Volume, cat: Catalog, v1: Volume, cat1: Catalog, imgs: seq<Image>, from: nat, S: set<u16>,
                  cat': Catalog, d: u16, name: Name11, nc: u16)
    requires WellFormedVolume(v, cat) && IsDirOf(cat, d) && Reached(v, cat, v1, cat1, S) && |imgs| > 0
    requires SameSpared(v, cat, v1, cat1, d, name) && AllSurvive(g, v, cat, imgs[..|imgs| - 1], from, S)
    requires var img := imgs[|imgs| - 1];
      && Laid(g, img) && Landed(v1, cat1, ViewOf(g, img), cat', d, name, nc)
      && (SparedIn(v1, cat1, d, name) ==> Survives(g, v1, cat1, img, {}) && Keeps(v1, cat1, ViewOf(g, img), cat'))
    ensures MkdirEnds(g, v, cat, imgs, from, S, 0, cat', d, name, nc)
  {
    hide Reached, Landed, SparedIn, Keeps, WellFormedVolume, ViewOf, Laid, Touched, Mirrored, IsDirOf, AllSurvive;
    var img := imgs[|imgs| - 1];
    LandedFrom(v, cat, v1, cat1, S, ViewOf(g, img), cat', d, name, nc);
    if SparedIn(v, cat, d, name) {
      ReachedSurvives(g, v, cat, v1, cat1, img, S, {});
      assert S + {} == S;
    } else {
      forall cat2
        ensures !Keeps(v, cat, ViewOf(g, img), cat2)
      {
        ShadowedIsLost(v, cat, ViewOf(g, img), cat', d, name, nc, cat2);
      }
    }
  }

  // The entry goes in: wraps `PutEntry` with everything that happened before it.
  method Finish(fs: Fat16, lba: nat, ent: nat, name: Name11, nc: u16,
                ghost v: Volume, ghost cat: Catalog, ghost cat1: Catalog,
                ghost S: set<u16>, ghost from: nat, ghost d: u16, ghost j: nat, ghost m: nat, ghost s: nat)
    returns (rc: int, ghost cat': Catalog)
    requires fs.Mounted() && LoneCluster(fs.View(), cat1, nc) && HoldsNewDir(fs.View(), d, nc)
    requires WellFormedVolume(v, cat) && IsDirOf(cat, d) && name[0] != 0 && Reached(v, cat, fs.View(), cat1, S)
    requires SameSpared(v, cat, fs.View(), cat1, d, name)
    requires SlotPlace(fs.geo, fs.View(), cat1, d, lba, j, ent, m, s)
    requires AllSurvive(fs.geo, v, cat, fs.disk.trace, from, S) && Survives(fs.geo, v, cat, fs.disk.sectors, S)
    modifies fs.disk
    ensures fs.Mounted() && rc <= 0 && old(fs.disk.trace) <= fs.disk.trace
    ensures fs.disk.readFaults >= old(fs.disk.readFaults) && fs.disk.writeFaults >= old(fs.disk.writeFaults)
    ensures rc == 0 <==> fs.disk.NoFaultSince(old(fs.disk.readFaults), old(fs.disk.writeFaults))
    ensures MkdirEnds(fs.geo, v, cat, fs.disk.trace, from, S, rc, cat', d, name, nc)
    ensures if rc == 0 then Marked(fs.View(), nc) else cat' == cat1 && Reached(v, cat, fs.View(), cat', S)
  {
    hide ViewOf, Laid, WellFormedVolume, Keeps, Survives, AllSurvive, Touched, HoldsNewDir, SlotPlace, Landed,
         Entries, Key, SparedIn, Guarded, Reached, SameSpared, LoneCluster;
    ghost var v1, before := fs.View(), fs.disk.trace;
    LoneIsMarked(v1, cat1, nc);
    KnownDir(v, cat, v1, cat1, S, d);
    rc, cat' := PutEntry(fs, lba, ent, name, nc, cat1, d, j, m, s);
    if rc == 0 {
      assert fs.disk.trace[..|before|] == before;
      LastWrite(fs.geo, v, cat, v1, cat1, fs.disk.trace, from, S, cat', d, name, nc);
    }
  }

  lemma LoneIsMarked(v: Volume, cat: Catalog, nc: u16)
    requires LoneCluster(v, cat, nc)
    ensures Marked(v, nc)
  {
    hide WellFormedVolume;
  }

  lemma KnownDir(v: Volume, cat: Catalog, v1: Volume, cat1: Catalog, S: set<u16>, d: u16)
    requires Reached(v, cat, v1, cat1, S) && IsDirOf(cat, d)
    ensures IsDirOf(cat1, d)
  {
  }
}
