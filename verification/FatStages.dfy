/** The stages of a mkdir up to its entry: what an interruption may leave, and what each stage achieves. */
module FatStages {
  import opened Bytes
  import opened FatVolume
  import opened FatTree
  import opened FatSteps
  import opened FatInsert
  import opened FatMount
  import opened FatWrite

  // ----- what an interrupted mkdir may leave -----

  // The cells of copy 0 whose state changed were free, and lie in S.
  ghost predicate Touched(v: Volume, w: Volume, S: set<u16>) {
    && |v.fat| > 0 && |w.fat| > 0 && |v.fat[0]| == |w.fat[0]| <= 0x1_0000
    && forall c: u16 :: c < |v.fat[0]| && (v.fat[0][c] == 0) != (w.fat[0][c] == 0) ==> c in S && v.fat[0][c] == 0
  }

  // Cluster c of zeros.
  function Cleared(w: Volume, c: u16): Volume
    requires 2 <= c < |w.data| + 2
  {
    WithCluster(w, c, seq(|w.data[c - 2]|, _ => ZeroSector()))
  }

  /**
   Between link and zeroing: directory d is full but for a last cluster of any contents, and
   zeros in that cluster are all that the invariant lacks.
   */
  ghost predicate Pending(w: Volume, cat: Catalog, d: u16) {
    && d in cat.dirs && d in cat.chains && cat.chains[d] != [] && 2 <= LastOf(cat, d) < |w.data| + 2
    && Full(Slots(Secs(w.data, cat.chains[d][..|cat.chains[d]| - 1])))
    && WellFormedVolume(Cleared(w, LastOf(cat, d)), cat)
  }

  // The whole invariant holds, but for such a cluster.
  ghost predicate Sound(w: Volume, cat: Catalog) {
    WellFormedVolume(w, cat) || exists d :: Pending(w, cat, d)
  }

  ghost predicate SoundlyKeeps(v: Volume, cat: Catalog, w: Volume, cat1: Catalog) {
    Keeps(v, cat, w, cat1) && Sound(w, cat1)
  }

  /**
   The image still holds every path and file of (v, cat), in a volume that satisfies the
   invariant or lacks only the zeros of a cluster just linked; only free clusters in S were
   taken; and copy 1 of the FAT calls free whatever copy 0 calls free.
   */
  ghost predicate Survives(g: Geom, v: Volume, cat: Catalog, img: Image, S: set<u16>) {
    && Laid(g, img) && Touched(v, ViewOf(g, img), S) && Mirrored(ViewOf(g, img))
    && exists cat1 :: SoundlyKeeps(v, cat, ViewOf(g, img), cat1)
  }

  lemma SurvivesFrom(g: Geom, v0: Volume, cat0: Catalog, v1: Volume, cat1: Catalog, img: Image, S: set<u16>,
                     T: set<u16>)
    requires Keeps(v0, cat0, v1, cat1) && Touched(v0, v1, S) && Survives(g, v1, cat1, img, T)
    ensures Survives(g, v0, cat0, img, S + T)
  {
    hide Keeps, ViewOf, Laid, Sound;
    var cat2 :| SoundlyKeeps(v1, cat1, ViewOf(g, img), cat2);
    KeepsTransitive(v0, cat0, v1, cat1, ViewOf(g, img), cat2);
    assert SoundlyKeeps(v0, cat0, ViewOf(g, img), cat2);
  }

  lemma SurvivesAt(g: Geom, v: Volume, cat: Catalog, img: Image, cat1: Catalog, S: set<u16>)
    requires Laid(g, img) && Keeps(v, cat, ViewOf(g, img), cat1) && Touched(v, ViewOf(g, img), S)
    requires Mirrored(ViewOf(g, img)) && Sound(ViewOf(g, img), cat1)
    ensures Survives(g, v, cat, img, S)
  {
    hide Keeps, Sound, Touched, Mirrored, ViewOf, Laid;
    assert SoundlyKeeps(v, cat, ViewOf(g, img), cat1);
  }

  lemma KeepsItself(v: Volume, cat: Catalog)
    requires WellFormedVolume(v, cat)
    ensures Keeps(v, cat, v, cat) && Touched(v, v, {}) && Mirrored(v) && Sound(v, cat)
  {
  }

  lemma SetCopiesTouches(v: Volume, n: nat, c: u16, x: u16)
    requires Shaped(v) && n <= |v.fat| && c < |v.fat[0]| && x != 0
    ensures v.fat[0][c] == 0 ==> Touched(v, SetCopies(v, n, c, x), {c})
    ensures v.fat[0][c] != 0 ==> Touched(v, SetCopies(v, n, c, x), {})
  {
  }

  lemma AllocSurvives(g: Geom, v: Volume, cat: Catalog, img: Image, n: nat, c: u16)
    requires WellFormedVolume(v, cat) && c < |v.fat[0]| && v.fat[0][c] == 0 && n <= |v.fat|
    requires Laid(g, img) && ViewOf(g, img) == SetCopies(v, n, c, 0xFFFF)
    ensures Survives(g, v, cat, img, {c})
  {
    hide ViewOf, Laid;
    AllocStep(v, cat, n, c);
    SetCopiesTouches(v, n, c, 0xFFFF);
    SurvivesAt(g, v, cat, img, cat, {c});
  }

  lemma PhaseSurvives(g: Geom, v: Volume, cat: Catalog, img: Image, c: u16)
    requires WellFormedVolume(v, cat) && c < |v.fat[0]| && v.fat[0][c] == 0
    requires FatPhase(g, v, img, c, 0xFFFF)
    ensures Survives(g, v, cat, img, {c})
  {
    hide ViewOf, Laid, WellFormedVolume, SetCopies;
    var n :| 1 <= n <= |v.fat| && ViewOf(g, img) == SetCopies(v, n, c, 0xFFFF);
    AllocSurvives(g, v, cat, img, n, c);
  }

  lemma ScratchSurvives(g: Geom, v: Volume, cat: Catalog, img: Image, c: u16)
    requires WellFormedVolume(v, cat) && Unchained(cat, c) && ScratchPhase(g, v, img, c)
    ensures Survives(g, v, cat, img, {})
  {
    hide ViewOf, Laid;
    ScratchStep(v, cat, ViewOf(g, img), c);
    SurvivesAt(g, v, cat, img, cat, {});
  }

  // ----- filling a cluster -----

  // The zeroing loop, from sector `start` on.
  method ZeroSectors(fs: Fat16, c: u16, start: nat, ghost v: Volume, ghost want: seq<Sector>) returns (rc: int)
    requires fs.Mounted() && 2 <= c < fs.geo.clusters + 2 && start <= fs.geo.spc == |want|
    requires forall k :: start <= k < |want| ==> want[k] == ZeroSector()
    requires c < |v.data| + 2 && |v.data[c - 2]| == |want|
    requires fs.View() == WithCluster(v, c, Partly(v.data[c - 2], want, start))
    modifies fs.disk
    ensures fs.Mounted() && rc <= 0 && old(fs.disk.trace) <= fs.disk.trace
    ensures fs.disk.readFaults == old(fs.disk.readFaults) && fs.disk.writeFaults >= old(fs.disk.writeFaults)
    ensures rc == 0 <==> fs.disk.writeFaults == old(fs.disk.writeFaults)
    ensures ScratchPhase(fs.geo, v, fs.disk.sectors, c)
    ensures rc == 0 ==> fs.View() == WithCluster(v, c, want)
    ensures forall k | |old(fs.disk.trace)| <= k < |fs.disk.trace| :: ScratchPhase(fs.geo, v, fs.disk.trace[k], c)
  {
    hide ViewOf, Laid, WithCluster, OnlyCluster;
    ghost var before := fs.disk.trace;
    for s := start to fs.geo.spc
      invariant fs.Mounted() && fs.View() == WithCluster(v, c, Partly(v.data[c - 2], want, s))
      invariant fs.disk.readFaults == old(fs.disk.readFaults) && fs.disk.writeFaults == old(fs.disk.writeFaults)
      invariant before <= fs.disk.trace
      invariant forall k | |before| <= k < |fs.disk.trace| :: ScratchPhase(fs.geo, v, fs.disk.trace[k], c)
    {
      rc := FillSector(fs, c, v, want, s, ZeroSector());
      if rc != 0 {
        return;
      }
    }
    assert Partly(v.data[c - 2], want, |want|) == want;
    return 0;
  }

  /** `init_dir_cluster`: "." and ".." in the first sector, zeros in the rest. */
  method InitDirCluster(fs: Fat16, nc: u16, parent: u16) returns (rc: int)
    requires fs.Mounted() && 2 <= nc < fs.geo.clusters + 2
    modifies fs.disk
    ensures fs.Mounted() && rc <= 0 && old(fs.disk.trace) <= fs.disk.trace
    ensures fs.disk.readFaults == old(fs.disk.readFaults) && fs.disk.writeFaults >= old(fs.disk.writeFaults)
    ensures rc == 0 <==> fs.disk.writeFaults == old(fs.disk.writeFaults)
    ensures ScratchPhase(fs.geo, old(fs.View()), fs.disk.sectors, nc)
    ensures fs.geo.spc > 0
    ensures nc < |old(fs.View()).data| + 2 && |old(fs.View()).data[nc - 2]| == fs.geo.spc
    ensures rc == 0 ==> fs.View() == WithCluster(old(fs.View()), nc, NewDir(fs.geo.spc, nc, parent))
    ensures forall k | |old(fs.disk.trace)| <= k < |fs.disk.trace| ::
      ScratchPhase(fs.geo, old(fs.View()), fs.disk.trace[k], nc)
  {
    hide ViewOf, Laid, WithCluster, OnlyCluster, DirSector;
    SpcPositive(fs.geo, fs.disk.sectors);
    ViewIsShaped(fs.geo, fs.disk.sectors);
    ghost var v, want := fs.View(), NewDir(fs.geo.spc, nc, parent);
    assert Partly(v.data[nc - 2], want, 0) == v.data[nc - 2];
    SameCluster(v, nc);
    rc := FillSector(fs, nc, v, want, 0, DirSector(nc, parent));
    if rc != 0 {
      return;
    }
    rc := ZeroSectors(fs, nc, 1, v, want);
  }

  lemma SameCluster(v: Volume, c: u16)
    requires 2 <= c < |v.data| + 2
    ensures WithCluster(v, c, v.data[c - 2]) == v && OnlyCluster(v, v, c)
  {
  }

  // ----- stage 1: a cluster holding an empty directory -----

  ghost predicate SameEntries(v: Volume, w: Volume, cat: Catalog, cat': Catalog) {
    && cat'.dirs == cat.dirs
    && (forall d | IsDirOf(cat, d) :: Entries(w, cat', d) == Entries(v, cat, d))
  }

  lemma Allocated(v: Volume, cat: Catalog, c: u16)
    requires WellFormedVolume(v, cat) && 2 <= c < |v.fat[0]| && v.fat[0][c] == 0
    ensures var w := SetCopies(v, |v.fat|, c, 0xFFFF);
      && LoneCluster(w, cat, c) && c < |v.data| + 2
      && Keeps(v, cat, w, cat) && Touched(v, w, {c}) && SameEntries(v, w, cat, cat)
  {
    AllocStep(v, cat, |v.fat|, c);
    SetCopiesTouches(v, |v.fat|, c, 0xFFFF);
    FreeIsUnchained(v, cat, c);
    assert Clus(v, c);
  }

  lemma Initialised(v: Volume, cat: Catalog, nc: u16, parent: u16)
    requires LoneCluster(v, cat, nc) && |Cluster(v.data, nc)| > 0
    ensures var w := WithCluster(v, nc, NewDir(|Cluster(v.data, nc)|, nc, parent));
      && LoneCluster(w, cat, nc) && HoldsNewDir(w, parent, nc)
      && Keeps(v, cat, w, cat) && Touched(v, w, {}) && SameEntries(v, w, cat, cat)
  {
    hide NewDir;
    ScratchStep(v, cat, WithCluster(v, nc, NewDir(|Cluster(v.data, nc)|, nc, parent)), nc);
  }

  // The free cluster an allocation would take.
  ghost predicate HasFree(v: Volume) {
    |v.fat| > 0 && |v.fat[0]| > 2 && NextFree(v.fat[0], 2) < |v.fat[0]|
  }

  lemma SameEntriesTrans(v: Volume, cat: Catalog, v1: Volume, cat1: Catalog, v2: Volume, cat2: Catalog)
    requires SameEntries(v, v1, cat, cat1) && SameEntries(v1, v2, cat1, cat2)
    ensures SameEntries(v, v2, cat, cat2)
  {
    hide Entries;
  }

  // Everything later stages need to know about the volume reached so far.
  ghost predicate Reached(v: Volume, cat: Catalog, w: Volume, cat': Catalog, S: set<u16>) {
    WellFormedVolume(w, cat') && Keeps(v, cat, w, cat') && Touched(v, w, S) && SameEntries(v, w, cat, cat')
  }

  lemma ReachedTrans(v: Volume, cat: Catalog, v1: Volume, cat1: Catalog, v2: Volume, cat2: Catalog, S: set<u16>,
                     T: set<u16>)
    requires Reached(v, cat, v1, cat1, S) && Reached(v1, cat1, v2, cat2, T)
    ensures Reached(v, cat, v2, cat2, S + T)
  {
    hide WellFormedVolume, Keeps, SameEntries;
    KeepsTransitive(v, cat, v1, cat1, v2, cat2);
    SameEntriesTrans(v, cat, v1, cat1, v2, cat2);
  }

  ghost predicate AllSurvive(g: Geom, v: Volume, cat: Catalog, imgs: seq<Image>, from: nat, S: set<u16>) {
    forall k | from <= k < |imgs| :: Survives(g, v, cat, imgs[k], S)
  }

  lemma AllSurviveFrom(g: Geom, v: Volume, cat: Catalog, v1: Volume, cat1: Catalog, imgs: seq<Image>,
                       from: nat, mid: nat, S: set<u16>, T: set<u16>)
    requires Reached(v, cat, v1, cat1, S) && mid <= |imgs|
    requires AllSurvive(g, v, cat, imgs[..mid], from, S) && AllSurvive(g, v1, cat1, imgs, mid, T)
    ensures AllSurvive(g, v, cat, imgs, from, S + T)
  {
    hide Survives, Reached;
    forall k | from <= k < |imgs|
      ensures Survives(g, v, cat, imgs[k], S + T)
    {
      if k < mid {
        assert imgs[..mid][k] == imgs[k];
        SurvivesMore(g, v, cat, imgs[k], S, S + T);
      } else {
        ReachedSurvives(g, v, cat, v1, cat1, imgs[k], S, T);
      }
    }
  }

  lemma ReachedSurvives(g: Geom, v: Volume, cat: Catalog, v1: Volume, cat1: Catalog, img: Image, S: set<u16>,
                        T: set<u16>)
    requires Reached(v, cat, v1, cat1, S) && Survives(g, v1, cat1, img, T)
    ensures Survives(g, v, cat, img, S + T)
  {
    hide WellFormedVolume, Keeps, SameEntries, Survives;
    SurvivesFrom(g, v, cat, v1, cat1, img, S, T);
  }

  lemma SurvivesMore(g: Geom, v: Volume, cat: Catalog, img: Image, S: set<u16>, T: set<u16>)
    requires Survives(g, v, cat, img, S) && S <= T
    ensures Survives(g, v, cat, img, T)
  {
    hide Keeps, ViewOf, Laid;
  }

  lemma AllocatedReached(v: Volume, cat: Catalog, c: u16)
    requires WellFormedVolume(v, cat) && 2 <= c < |v.fat[0]| && v.fat[0][c] == 0
    ensures var w := SetCopies(v, |v.fat|, c, 0xFFFF);
      LoneCluster(w, cat, c) && Reached(v, cat, w, cat, {c})
      && w.fat[0] == v.fat[0][c := 0xFFFF] && w.data == v.data && w.root == v.root
  {
    hide Keeps, SameEntries, Touched;
    Allocated(v, cat, c);
  }

  // However many copies the allocation reached.
  lemma PartlyAllocated(v: Volume, cat: Catalog, n: nat, c: u16)
    requires WellFormedVolume(v, cat) && n <= |v.fat| && c < |v.fat[0]| && v.fat[0][c] == 0
    ensures Reached(v, cat, SetCopies(v, n, c, 0xFFFF), cat, {c})
  {
    hide Keeps, Entries;
    AllocStep(v, cat, n, c);
    SetCopiesTouches(v, n, c, 0xFFFF);
  }

  lemma ReachedItself(v: Volume, cat: Catalog)
    requires WellFormedVolume(v, cat)
    ensures Reached(v, cat, v, cat, {})
  {
    KeepsItself(v, cat);
  }

  // However much of a cluster nobody owns was rewritten.
  lemma ScratchReached(v: Volume, cat: Catalog, w: Volume, c: u16)
    requires LoneCluster(v, cat, c) && OnlyCluster(v, w, c)
    ensures Reached(v, cat, w, cat, {})
  {
    hide Keeps, Entries;
    ScratchStep(v, cat, w, c);
  }

  /** `fat16_alloc_clus` as mkdir uses it: nothing stored is disturbed, however far it gets. */
  method TakeCluster(fs: Fat16, ghost cat: Catalog) returns (rc: int, c: u16, ghost S: set<u16>)
    requires fs.Mounted() && WellFormedVolume(fs.View(), cat)
    modifies fs.disk
    ensures fs.Mounted() && rc <= 0 && old(fs.disk.trace) <= fs.disk.trace && |S| <= 1
    ensures fs.disk.readFaults >= old(fs.disk.readFaults) && fs.disk.writeFaults >= old(fs.disk.writeFaults)
    ensures AllSurvive(fs.geo, old(fs.View()), cat, fs.disk.trace, |old(fs.disk.trace)|, S)
    ensures Survives(fs.geo, old(fs.View()), cat, fs.disk.sectors, S)
    ensures Reached(old(fs.View()), cat, fs.View(), cat, S)
    ensures rc == 0 ==> LoneCluster(fs.View(), cat, c)
    ensures rc == 0 <==>
      HasFree(old(fs.View())) && fs.disk.NoFaultSince(old(fs.disk.readFaults), old(fs.disk.writeFaults))
    ensures !HasFree(old(fs.View())) && fs.disk.NoFaultSince(old(fs.disk.readFaults), old(fs.disk.writeFaults)) ==>
      rc == -3
    ensures rc == 0 ==>
      && c == NextFree(old(fs.View()).fat[0], 2) && fs.View().fat[0] == old(fs.View()).fat[0][c := 0xFFFF]
      && fs.View().data == old(fs.View()).data && fs.View().root == old(fs.View()).root
  {
    hide ViewOf, Laid, SetCopies, WellFormedVolume, Keeps, Survives, FatPhase, Reached, LoneCluster;
    ghost var v, start, n := fs.View(), |fs.disk.trace|, 0;
    ViewIsShaped(fs.geo, fs.disk.sectors);
    KeepsItself(v, cat);
    SurvivesAt(fs.geo, v, cat, fs.disk.sectors, cat, {});
    ReachedItself(v, cat);
    rc, c, n := AllocClus(fs);
    S := {};
    if HasFree(v) {
      var t := NextFree(v.fat[0], 2);
      S := {t};
      AllocSurvives(fs.geo, v, cat, fs.disk.sectors, n, t);
      forall k | start <= k < |fs.disk.trace|
        ensures Survives(fs.geo, v, cat, fs.disk.trace[k], {t})
      {
        PhaseSurvives(fs.geo, v, cat, fs.disk.trace[k], t);
      }
      PartlyAllocated(v, cat, n, t);
      AllocatedReached(v, cat, t);
    }
  }

  // The sectors of every directory are what they were.
  ghost predicate SameDirSecs(v: Volume, w: Volume, cat: Catalog) {
    forall d | IsDirOf(cat, d) :: DirSecs(w, cat, d) == DirSecs(v, cat, d)
  }

  lemma ScratchSecs(v: Volume, cat: Catalog, w: Volume, c: u16)
    requires OnlyCluster(v, w, c) && Unchained(cat, c)
    ensures SameDirSecs(v, w, cat)
  {
    forall d | IsDirOf(cat, d)
      ensures DirSecs(w, cat, d) == DirSecs(v, cat, d)
    {
      if d in cat.chains {
        SecsFrame(v.data, w.data, cat.chains[d], c);
      }
    }
  }

  lemma InitialisedReached(v: Volume, cat: Catalog, nc: u16, parent: u16)
    requires LoneCluster(v, cat, nc) && |Cluster(v.data, nc)| > 0
    ensures var w := WithCluster(v, nc, NewDir(|Cluster(v.data, nc)|, nc, parent));
      LoneCluster(w, cat, nc) && HoldsNewDir(w, parent, nc) && Reached(v, cat, w, cat, {}) && w.fat == v.fat
      && SameDirSecs(v, w, cat)
  {
    hide Keeps, SameEntries, Touched, NewDir, SameDirSecs;
    Initialised(v, cat, nc, parent);
    ScratchSecs(v, cat, WithCluster(v, nc, NewDir(|Cluster(v.data, nc)|, nc, parent)), nc);
  }

  lemma AllScratchSurvive(g: Geom, v: Volume, cat: Catalog, imgs: seq<Image>, from: nat, c: u16)
    requires LoneCluster(v, cat, c)
    requires forall k | from <= k < |imgs| :: ScratchPhase(g, v, imgs[k], c)
    ensures AllSurvive(g, v, cat, imgs, from, {})
  {
    hide Survives, ScratchPhase, WellFormedVolume;
    forall k | from <= k < |imgs|
      ensures Survives(g, v, cat, imgs[k], {})
    {
      ScratchSurvives(g, v, cat, imgs[k], c);
    }
  }

  /** Allocate a cluster and make it an empty directory under `parent`. */
  method NewDirCluster(fs: Fat16, parent: u16, ghost cat: Catalog) returns (rc: int, nc: u16, ghost S: set<u16>)
    requires fs.Mounted() && WellFormedVolume(fs.View(), cat)
    modifies fs.disk
    ensures fs.Mounted() && rc <= 0 && old(fs.disk.trace) <= fs.disk.trace && |S| <= 1
    ensures fs.disk.readFaults >= old(fs.disk.readFaults) && fs.disk.writeFaults >= old(fs.disk.writeFaults)
    ensures AllSurvive(fs.geo, old(fs.View()), cat, fs.disk.trace, |old(fs.disk.trace)|, S)
    ensures Survives(fs.geo, old(fs.View()), cat, fs.disk.sectors, S)
    ensures Reached(old(fs.View()), cat, fs.View(), cat, S)
    ensures rc == 0 ==> LoneCluster(fs.View(), cat, nc) && HoldsNewDir(fs.View(), parent, nc)
    ensures rc == 0 <==>
      HasFree(old(fs.View())) && fs.disk.NoFaultSince(old(fs.disk.readFaults), old(fs.disk.writeFaults))
    ensures !HasFree(old(fs.View())) && fs.disk.NoFaultSince(old(fs.disk.readFaults), old(fs.disk.writeFaults)) ==>
      rc == -3
    ensures rc == 0 ==>
      && nc == NextFree(old(fs.View()).fat[0], 2)
      && |fs.View().fat| > 0 && SameDirSecs(old(fs.View()), fs.View(), cat)
      && fs.View().fat[0] == old(fs.View()).fat[0][NextFree(old(fs.View()).fat[0], 2) := 0xFFFF]
  {
    hide ViewOf, Laid, WellFormedVolume, Keeps, Survives, ScratchPhase, Reached, NewDir, LoneCluster, AllSurvive,
         WithCluster, HoldsNewDir;
    ghost var v, start := fs.View(), |fs.disk.trace|;
    rc, nc, S := TakeCluster(fs, cat);
    if rc != 0 {
      return;
    }
    ghost var v1, midTrace := fs.View(), fs.disk.trace;
    ghost var mid := |midTrace|;
    LoneIsCluster(fs.geo, fs.disk.sectors, cat, nc);
    InitialisedReached(v1, cat, nc, parent);
    rc := InitDirCluster(fs, nc, parent);
    assert fs.disk.trace[..mid] == midTrace && S + {} == S;
    AllScratchSurvive(fs.geo, v1, cat, fs.disk.trace, mid, nc);
    StageEnds(fs.geo, v, cat, v1, cat, fs.disk.trace, start, mid, S, {}, fs.disk.sectors, nc);
    ScratchedReached(fs.geo, fs.disk.sectors, v1, cat, nc);
    ReachedTrans(v, cat, v1, cat, fs.View(), cat, S, {});
    assert S + {} == S;
  }

  lemma ScratchedReached(g: Geom, img: Image, v: Volume, cat: Catalog, nc: u16)
    requires LoneCluster(v, cat, nc) && ScratchPhase(g, v, img, nc)
    ensures Laid(g, img) && Reached(v, cat, ViewOf(g, img), cat, {})
  {
    hide ViewOf, Laid, LoneCluster, Reached, OnlyCluster;
    ScratchReached(v, cat, ViewOf(g, img), nc);
  }

  lemma LoneIsCluster(g: Geom, img: Image, cat: Catalog, nc: u16)
    requires Laid(g, img) && LoneCluster(ViewOf(g, img), cat, nc)
    ensures 2 <= nc < g.clusters + 2 && |Cluster(ViewOf(g, img).data, nc)| == g.spc > 0
  {
  }

  lemma StageEnds(g: Geom, v: Volume, cat: Catalog, v1: Volume, cat1: Catalog, imgs: seq<Image>,
                  from: nat, mid: nat, S: set<u16>, T: set<u16>, img: Image, nc: u16)
    requires Reached(v, cat, v1, cat1, S) && mid <= |imgs| && LoneCluster(v1, cat1, nc)
    requires AllSurvive(g, v, cat, imgs[..mid], from, S) && AllSurvive(g, v1, cat1, imgs, mid, T)
    requires ScratchPhase(g, v1, img, nc)
    ensures AllSurvive(g, v, cat, imgs, from, S + T) && Survives(g, v, cat, img, S)
  {
    hide Survives, Reached, AllSurvive, ScratchPhase, WellFormedVolume;
    AllSurviveFrom(g, v, cat, v1, cat1, imgs, from, mid, S, T);
    ScratchSurvives(g, v1, cat1, img, nc);
    ReachedSurvives(g, v, cat, v1, cat1, img, S, {});
    assert S + {} == S;
  }
}
