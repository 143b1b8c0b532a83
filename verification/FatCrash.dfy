/** What mkdir's guarantees mean for whoever reads the volume afterwards. */
module FatCrash {
  import opened Bytes
  import opened Names83
  import opened FatVolume
  import opened FatTree
  import opened FatInsert
  import opened FatMount
  import opened FatStat
  import opened FatStages
  import opened FatMkdir
  import opened FatMkdirPath
  import opened FatTreeChange

  // Only the directories known before.
  function OldDirs(cat: Catalog, cat1: Catalog): Catalog {
    cat1.(dirs := cat.dirs)
  }

  lemma KeepsOldDirs(v: Volume, cat: Catalog, w: Volume, cat1: Catalog)
    requires WellFormedVolume(v, cat) && Keeps(v, cat, w, cat1)
    ensures Keeps(v, cat, w, OldDirs(cat, cat1)) && Readable(w, OldDirs(cat, cat1))
  {
    hide DirOk, FatOk, LiveEntries, Slots, Secs;
    var cat2 := OldDirs(cat, cat1);
    forall d | IsDirOf(cat, d)
      ensures Finds(Entries(v, cat, d), Entries(w, cat2, d))
    {
      assert Entries(w, cat2, d) == Entries(w, cat1, d);
    }
    ReadableVolume(v, cat);
    forall d <- cat.dirs
      ensures d in cat2.chains && IsChain(w, cat2.chains[d]) && cat2.chains[d][0] == d
    {
      assert d in cat.chains && IsChain(v, cat.chains[d]);
    }
  }

  lemma {:induction false} PrefixResolves(v: Volume, cat: Catalog, comps: seq<seq<byte>>, n: nat)
    requires n <= |comps| && !Walk(v, cat, comps).Fail?
    ensures !Walk(v, cat, comps[..n]).Fail?
  {
    hide Look;
    assert comps == comps[..n] + comps[n..];
    if Walk(v, cat, comps[..n]).Fail? {
      FailStays(v, cat, comps[..n], comps[n..]);
    }
  }

  lemma KeptTravels(v: Volume, cat: Catalog, w: Volume, cat1: Catalog, comps: seq<seq<byte>>)
    requires WellFormedVolume(v, cat) && Keeps(v, cat, w, cat1) && cat1.dirs == cat.dirs
    requires !Walk(v, cat, comps).Fail?
    ensures Travels(w, cat1, comps) && Walk(w, cat1, comps) == Walk(v, cat, comps)
  {
    hide WellFormedVolume, Keeps, Walk;
    forall n | 0 <= n <= |comps|
      ensures SpotOk(cat1, Walk(w, cat1, comps[..n]))
    {
      PrefixResolves(v, cat, comps, n);
      KeptPathResolves(v, cat, w, cat1, comps[..n]);
      WalkStaysOk(v, cat, comps[..n]);
    }
    KeptPathResolves(v, cat, w, cat1, comps);
  }

  // What a reader of w finds under `path`, given some catalog of w.
  ghost predicate Serves(w: Volume, cat1: Catalog, path: seq<byte>, spot: Spot) {
    Readable(w, cat1) && Travels(w, cat1, Components(path)) && Resolve(w, cat1, path) == spot
  }

  /**
   Stop a mkdir after any sector write and look at what is there: every path that resolved
   still does, to the same entry, and a file still has the same sectors.
   */
  lemma SurvivorServes(g: Geom, v: Volume, cat: Catalog, img: Image, S: set<u16>, path: seq<byte>)
    requires WellFormedVolume(v, cat) && Survives(g, v, cat, img, S)
    requires !Resolve(v, cat, path).Fail?
    ensures exists cat1 ::
      Serves(ViewOf(g, img), cat1, path, Resolve(v, cat, path)) && KeepsFiles(v, cat, ViewOf(g, img), cat1)
  {
    hide WellFormedVolume, Walk, Components, ViewOf, Laid, Sound;
    var w := ViewOf(g, img);
    var cat0 :| SoundlyKeeps(v, cat, w, cat0);
    KeepsOldDirs(v, cat, w, cat0);
    var cat1 := OldDirs(cat, cat0);
    KeptTravels(v, cat, w, cat1, Components(path));
    assert Serves(w, cat1, path, Resolve(v, cat, path));
  }

  /**
   ... and mounting it again is what shows it: on a volume with a reserved sector every image
   since the mount has the boot sector it had, and so the geometry the paths were read with.
   */
  lemma SurvivorMounts(base: nat, clusters: nat, home: Image, imgs: seq<Image>, since: nat, k: nat,
                       v: Volume, cat: Catalog, S: set<u16>, path: seq<byte>)
    requires base < |home| && MountCode(home[base]) == 0 && Rd16(home[base], 14) > 0
    requires Guarded(GeomOf(home[base], base, clusters), home, imgs, since) && since <= k < |imgs|
    requires WellFormedVolume(v, cat) && Survives(GeomOf(home[base], base, clusters), v, cat, imgs[k], S)
    requires !Resolve(v, cat, path).Fail?
    ensures base < |imgs[k]| && MountCode(imgs[k][base]) == 0
    ensures var g := GeomOf(imgs[k][base], base, clusters);
      && Handled(g, |imgs[k]|) && Laid(g, imgs[k])
      && exists cat1 :: Serves(ViewOf(g, imgs[k]), cat1, path, Resolve(v, cat, path))
                        && KeepsFiles(v, cat, ViewOf(g, imgs[k]), cat1)
  {
    hide WellFormedVolume, Walk, Components, ViewOf, GeomOf, MountCode, Keeps, KeepsFiles, Serves, Guarded;
    MountsAgain(base, clusters, home, imgs, since, k);
    MountLays(imgs[k][base], base, clusters, imgs[k]);
    SurvivorServes(GeomOf(home[base], base, clusters), v, cat, imgs[k], S, path);
  }

  /**
   A finished mkdir of a plain path, seen through any plain path: the new directory at that
   path, nothing beyond it, and everywhere else what was there before.
   */
  lemma MkdirSeen(v: Volume, cat: Catalog, w: Volume, cat': Catalog, path: seq<byte>, d: u16, nc: u16, q: seq<byte>)
    requires WellFormedVolume(v, cat) && 0 !in path && ParentFits(path) && LeafOf(path) != []
    requires PlainPath(Components(path)) && PlainPath(Components(q))
    requires !Resolve(v, cat, path).Found? && Encode(LeafOf(path)).Ok?
    requires DirAt(cat, Resolve(v, cat, ParentOf(path))) == Some(d)
    requires Outcome(v, cat, w, cat', d, Encode(LeafOf(path)).name, nc) && Encode(LeafOf(path)).name[0] != 0xE5
    ensures Resolve(w, cat', q) ==
      AfterMkdir(DirEntry(Encode(LeafOf(path)).name, nc), Resolve(v, cat, q),
                 SamePath(Components(path), Components(q)), Leads(Components(path), Components(q)))
  {
    hide WellFormedVolume, Walk, Components, Encode, Key, Made, Entries, ParentOf, LeafOf, SamePath, Leads;
    LeafIsComponent(path);
    EncodableIsShort(LeafOf(path));
    SplitComponents(path);
    var parent, leaf := Components(ParentOf(path)), LeafOf(path);
    assert PlainPath(parent) && Plain(leaf) by {
      assert forall i :: 0 <= i < |parent| ==> Components(path)[i] == parent[i];
      assert Components(path)[|parent|] == leaf;
    }
    assert Walk(v, cat, parent) == Resolve(v, cat, ParentOf(path));
    LeafUnused(v, cat, path, d);
    MkdirTree(v, cat, w, cat', d, nc, parent, leaf, Components(q));
  }

  lemma LeafUnused(v: Volume, cat: Catalog, path: seq<byte>, d: u16)
    requires 0 !in path && ParentFits(path) && LeafOf(path) != [] && |FullLeaf(path)| <= 63
    requires Plain(LeafOf(path)) && !Resolve(v, cat, path).Found?
    requires DirAt(cat, Resolve(v, cat, ParentOf(path))) == Some(d)
    ensures Lookup(Entries(v, cat, d), CompKey(LeafOf(path))).None?
  {
    hide Encode, Key, Entries, Resolve, ParentOf, LeafOf;
    ResolveSnoc(v, cat, path);
    PlainLook(v, cat, Resolve(v, cat, ParentOf(path)), LeafOf(path));
  }
}
