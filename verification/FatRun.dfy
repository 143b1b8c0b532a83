/** Whole runs of mkdir, from a formatted volume on. */
module FatRun {
  import opened Bytes
  import opened Names83
  import opened FatVolume
  import opened FatTree
  import opened FatMount
  import opened FatInsert
  import opened FatStages
  import opened FatMkdir
  import opened FatMkdirPath
  import opened Path83
  import opened FsLayer

  const NO_FILES := Catalog(map[], {}, map[])

  // ----- where a run starts -----

  ghost predicate Blank(v: Volume) {
    && Shaped(v) && FatOk(v)
    && forall k :: 0 <= k < |v.root| ==> v.root[k] == ZeroSector()
  }

  lemma ZeroSlot(secs: seq<Sector>, i: nat)
    requires i < |Slots(secs)| && forall k :: 0 <= k < |secs| ==> secs[k] == ZeroSector()
    ensures Slots(secs)[i][0] == 0
  {
  }

  /** A freshly formatted volume satisfies the whole invariant, with nothing in it. */
  lemma BlankIsWellFormed(v: Volume)
    requires Blank(v)
    ensures WellFormedVolume(v, NO_FILES) && Entries(v, NO_FILES, 0) == []
  {
    hide Slots, FatOk;
    var secs := DirSecs(v, NO_FILES, 0);
    assert secs == v.root;
    forall i | 0 <= i < |Slots(secs)|
      ensures Slots(secs)[i][0] == 0
    {
      ZeroSlot(secs, i);
    }
    assert LiveEntries(Slots(secs)) == [];
    forall d | IsDirOf(NO_FILES, d)
      ensures DirOk(v, NO_FILES, d)
    {
      assert d == 0;
    }
  }

  lemma BareLeaf(leaf: seq<byte>)
    requires Component(leaf) && leaf != [] && |leaf| <= 63
    ensures ParentOf(leaf) == [] && LeafOf(leaf) == leaf && Components(leaf) == [leaf]
  {
    assert !EndsName(leaf[0]);
    assert Lead(leaf) == 0 && leaf[0..] == leaf;
    assert AfterLastSep(leaf) == 0 by {
      assert AfterLastSep(leaf) > 0 ==> EndsName(leaf[AfterLastSep(leaf) - 1]);
    }
    NameEndAt(leaf, 0, |leaf|);
    assert leaf[..|leaf|] == leaf && leaf[|leaf|..] == [];
  }

  /** ... and, with a free cluster and any root region, a directory can be made in it. */
  lemma BlankTakesAny(v: Volume, leaf: seq<byte>)
    requires Blank(v) && HasFree(v) && |v.root| > 0
    requires Component(leaf) && leaf != [] && Encode(leaf).Ok?
    ensures CanMkdir(v, NO_FILES, leaf)
  {
    hide Encode, Key, Slots, FatOk, ParentOf, LeafOf;
    EncodableIsShort(leaf);
    BareLeaf(leaf);
    BlankIsWellFormed(v);
    assert [leaf][..0] == [];
    assert Walk(v, NO_FILES, []) == AtRoot;
    assert Resolve(v, NO_FILES, leaf) == Look(v, NO_FILES, AtRoot, leaf);
    ZeroSlot(v.root, 0);
  }

  // ----- fs_mkdir -----

  lemma {:induction false} LoopNoNul(s: seq<byte>, o: seq<byte>, cap: nat)
    requires 0 !in o
    ensures 0 !in Loop(s, o, cap)
    decreases |s|
  {
    if !(s == [] || s[0] == 0 || |o| + 1 >= cap) {
      LoopNoNul(s[1..], Push(o, s[0]), cap);
    }
  }

  lemma NormNoNul(s: seq<byte>, cap: nat)
    ensures 0 !in Norm(s, cap)
  {
    LoopNoNul(s, [], cap);
  }

  // The text mkdir is handed.
  function Text83(path: seq<byte>): seq<byte> {
    Norm(path, PATH_CAP)
  }

  /** A volume and what is on it. */
  datatype State = State(v: Volume, cat: Catalog)

  /** What a call returned, and whether it met no disk error. */
  datatype Result = Result(rc: int, clean: bool)

  // What a mkdir of `path` that was not torn has done.
  ghost predicate Step(a: State, path: seq<byte>, out: Result, b: State) {
    && WellFormedVolume(b.v, b.cat)
    && (out.clean ==> out.rc == MkdirCode(a.v, a.cat, Text83(path)))
    && (out.clean ==> (out.rc == 0 <==> CanMkdir(a.v, a.cat, Text83(path))))
    && (out.rc == 0 ==> exists nc: u16 ::
          Landed(a.v, a.cat, b.v, b.cat, ParentDir(a.v, a.cat, Text83(path)), LeafName(LeafOf(Text83(path))), nc))
    && (out.rc != 0 ==> SameEntries(a.v, b.v, a.cat, b.cat))
    && (out.rc != 0 || SparesAll(a.v, a.cat, Text83(path)) ==> Keeps(a.v, a.cat, b.v, b.cat))
  }

  /**
   `fs_mkdir`: `fat16_mkdir_path83` of the normalised text, with all that this guarantees, faults
   or not. Unless it is torn between link and zeroing, the invariant holds afterwards; and
   without a fault it answers `MkdirCode`, so it succeeds exactly when it can.
   */
  method FsMkdir(fs: Fat16, path: seq<byte>, ghost cat: Catalog)
    returns (rc: int, torn: bool, ghost cat': Catalog, ghost nc: u16, ghost S: set<u16>)
    requires fs.Mounted() && WellFormedVolume(fs.View(), cat)
    modifies fs.disk
    ensures fs.Mounted() && old(fs.disk.trace) <= fs.disk.trace && |S| <= 2
    ensures fs.disk.readFaults >= old(fs.disk.readFaults) && fs.disk.writeFaults >= old(fs.disk.writeFaults)
    ensures MkdirEnds(fs.geo, old(fs.View()), cat, fs.disk.trace, |old(fs.disk.trace)|, S, rc,
                      cat', ParentDir(old(fs.View()), cat, Text83(path)), LeafName(LeafOf(Text83(path))), nc)
    ensures rc == 0 ==> TookFree(old(fs.View()), fs.View(), nc)
    ensures torn ==> rc != 0 && !fs.disk.NoFaultSince(old(fs.disk.readFaults), old(fs.disk.writeFaults))
    ensures !torn ==>
      Step(State(old(fs.View()), cat), path,
           Result(rc, fs.disk.NoFaultSince(old(fs.disk.readFaults), old(fs.disk.writeFaults))), State(fs.View(), cat'))
  {
    hide ViewOf, Laid, WellFormedVolume, Keeps, Survives, AllSurvive, Resolve, CanMkdir, MkdirCode, ParentOf, LeafOf,
         Norm, Encode, SameEntries, Touched, Entries, KeepsFiles, Landed, MkdirEnds, SparedIn, Guarded, Step, Reached;
    ghost var v, from := fs.View(), |fs.disk.trace|;
    var p83 := Normalised(path);
    NormNoNul(path, PATH_CAP);
    rc, torn, cat', nc, S := Mkdir(fs, p83, cat);
    if !torn {
      ghost var clean := fs.disk.NoFaultSince(old(fs.disk.readFaults), old(fs.disk.writeFaults));
      StepDone(fs.geo, State(v, cat), path, fs.disk.trace, from, S, Result(rc, clean), State(fs.View(), cat'), nc);
    }
  }

  lemma StepDone(g: Geom, a: State, path: seq<byte>, imgs: seq<Image>, from: nat, S: set<u16>, out: Result,
                 b: State, nc: u16)
    requires |imgs| > 0 && Laid(g, imgs[|imgs| - 1]) && b.v == ViewOf(g, imgs[|imgs| - 1])
    requires MkdirEnds(g, a.v, a.cat, imgs, from, S, out.rc, b.cat, ParentDir(a.v, a.cat, Text83(path)),
                       LeafName(LeafOf(Text83(path))), nc)
    requires out.clean ==>
      out.rc == MkdirCode(a.v, a.cat, Text83(path)) && (out.rc == 0 <==> CanMkdir(a.v, a.cat, Text83(path)))
    requires out.rc != 0 ==> Reached(a.v, a.cat, b.v, b.cat, S)
    ensures Step(a, path, out, b)
  {
    hide ViewOf, Laid, WellFormedVolume, Keeps, Survives, AllSurvive, Resolve, CanMkdir, MkdirCode, ParentOf, LeafOf,
         LeafName,
         Norm, SameEntries, Touched, SparedIn, Made, Entries, ParentDir, KeepsFiles;
  }

  // ----- runs -----

  /** What a run may ask for so that nothing is ever lost: parent texts that fit the driver's buffer. */
  predicate AllFit(paths: seq<seq<byte>>) {
    forall i :: 0 <= i < |paths| ==> ParentFits(Text83(paths[i]))
  }

  // A step that loses nothing: it failed, or it met no error with a parent that fits, or it spares all.
  ghost predicate Harmless(a: State, path: seq<byte>, out: Result) {
    out.rc != 0 || (out.clean && ParentFits(Text83(path))) || SparesAll(a.v, a.cat, Text83(path))
  }

  lemma HarmlessSpares(a: State, path: seq<byte>, out: Result, b: State)
    requires WellFormedVolume(a.v, a.cat) && Step(a, path, out, b) && Harmless(a, path, out)
    ensures (out.rc == 0 ==> SparesAll(a.v, a.cat, Text83(path))) && Keeps(a.v, a.cat, b.v, b.cat)
  {
    hide WellFormedVolume, Keeps, SameEntries, SparesAll, CanMkdir, MkdirCode, Landed, Norm, ParentFits;
    NormNoNul(path, PATH_CAP);
    ParentFitsExactly(a.v, a.cat, Text83(path));
  }

  // The states before the first step, between steps, and after the last.
  ghost predicate IsRun(paths: seq<seq<byte>>, outs: seq<Result>, pts: seq<State>) {
    && |pts| == |outs| + 1 && |outs| <= |paths| && WellFormedVolume(pts[0].v, pts[0].cat)
    && forall i :: 0 <= i < |outs| ==> Step(pts[i], paths[i], outs[i], pts[i + 1])
  }

  ghost predicate HarmlessFrom(paths: seq<seq<byte>>, outs: seq<Result>, pts: seq<State>, i: nat, j: nat)
    requires IsRun(paths, outs, pts) && j <= |outs|
  {
    forall k :: i <= k < j ==> Harmless(pts[k], paths[k], outs[k])
  }

  lemma StepIsSound(a: State, path: seq<byte>, out: Result, b: State)
    requires Step(a, path, out, b)
    ensures WellFormedVolume(b.v, b.cat)
  {
    hide WellFormedVolume, Keeps, SameEntries, Landed, CanMkdir, MkdirCode;
  }

  lemma StartOfRun(paths: seq<seq<byte>>, a: State)
    requires WellFormedVolume(a.v, a.cat)
    ensures IsRun(paths, [], [a])
  {
  }

  lemma RunGrows(paths: seq<seq<byte>>, outs: seq<Result>, pts: seq<State>, out: Result, b: State)
    requires IsRun(paths, outs, pts) && |outs| < |paths| && Step(pts[|outs|], paths[|outs|], out, b)
    ensures IsRun(paths, outs + [out], pts + [b]) && WellFormedVolume(b.v, b.cat)
    ensures HarmlessFrom(paths, outs + [out], pts + [b], 0, |outs| + 1) ==>
      HarmlessFrom(paths, outs, pts, 0, |outs|) && Harmless(pts[|outs|], paths[|outs|], out)
  {
    hide WellFormedVolume, Step, Harmless;
    StepIsSound(pts[|outs|], paths[|outs|], out, b);
    var outs', pts' := outs + [out], pts + [b];
    assert forall i :: 0 <= i < |outs| ==> outs'[i] == outs[i];
    assert forall i :: 0 <= i <= |outs| ==> pts'[i] == pts[i];
    assert outs'[|outs|] == out && pts'[|outs|] == pts[|outs|];
  }

  lemma {:induction false} RunIsSound(paths: seq<seq<byte>>, outs: seq<Result>, pts: seq<State>, i: nat)
    requires IsRun(paths, outs, pts) && i <= |outs|
    ensures WellFormedVolume(pts[i].v, pts[i].cat)
  {
    hide WellFormedVolume, Step;
    if i > 0 {
      StepIsSound(pts[i - 1], paths[i - 1], outs[i - 1], pts[i]);
    }
  }

  /**
   At every point of a run, failed and faulty steps included, the invariant holds; and between
   two points whose steps are harmless, whatever a path led to it still leads to.
   */
  lemma {:induction false} RunKeeps(paths: seq<seq<byte>>, outs: seq<Result>, pts: seq<State>, i: nat, j: nat)
    requires IsRun(paths, outs, pts) && i <= j <= |outs| && HarmlessFrom(paths, outs, pts, i, j)
    ensures WellFormedVolume(pts[i].v, pts[i].cat) && WellFormedVolume(pts[j].v, pts[j].cat)
    ensures Keeps(pts[i].v, pts[i].cat, pts[j].v, pts[j].cat)
    ensures forall path :: !Resolve(pts[i].v, pts[i].cat, path).Fail? ==>
      Resolve(pts[j].v, pts[j].cat, path) == Resolve(pts[i].v, pts[i].cat, path)
    decreases j - i
  {
    hide WellFormedVolume, Keeps, Walk, Step, Harmless;
    RunIsSound(paths, outs, pts, i);
    RunIsSound(paths, outs, pts, j);
    if i == j {
      KeepsItself(pts[i].v, pts[i].cat);
    } else {
      RunKeeps(paths, outs, pts, i, j - 1);
      RunIsSound(paths, outs, pts, j - 1);
      HarmlessSpares(pts[j - 1], paths[j - 1], outs[j - 1], pts[j]);
      KeepsTransitive(pts[i].v, pts[i].cat, pts[j - 1].v, pts[j - 1].cat, pts[j].v, pts[j].cat);
    }
    forall path | !Resolve(pts[i].v, pts[i].cat, path).Fail?
      ensures Resolve(pts[j].v, pts[j].cat, path) == Resolve(pts[i].v, pts[i].cat, path)
    {
      KeptPathResolves(pts[i].v, pts[i].cat, pts[j].v, pts[j].cat, Components(path));
    }
  }

  // ----- what an interrupted run leaves -----

  // So far every image of the run holds what the start held.
  ghost predicate AllHeld(g: Geom, a: State, imgs: seq<Image>, from: nat, b: State, S: set<u16>) {
    Keeps(a.v, a.cat, b.v, b.cat) && Touched(a.v, b.v, S) && AllSurvive(g, a.v, a.cat, imgs, from, S)
  }

  lemma ImagesHeld(g: Geom, a: State, before: seq<Image>, imgs: seq<Image>, from: nat, b: State, S: set<u16>,
                   T: set<u16>)
    requires AllHeld(g, a, before, from, b, S) && before <= imgs && AllSurvive(g, b.v, b.cat, imgs, |before|, T)
    ensures AllSurvive(g, a.v, a.cat, imgs, from, S + T)
  {
    hide Keeps, Touched, Survives;
    forall k | from <= k < |imgs|
      ensures Survives(g, a.v, a.cat, imgs[k], S + T)
    {
      if k < |before| {
        SurvivesMore(g, a.v, a.cat, imgs[k], S, S + T);
      } else {
        SurvivesFrom(g, a.v, a.cat, b.v, b.cat, imgs[k], S, T);
      }
    }
  }

  lemma StepHolds(g: Geom, a: State, before: seq<Image>, imgs: seq<Image>, from: nat, b: State, S: set<u16>,
                  T: set<u16>, path: seq<byte>, out: Result, c: State, nc: u16)
    requires AllHeld(g, a, before, from, b, S) && before <= imgs
    requires WellFormedVolume(b.v, b.cat) && Step(b, path, out, c) && Harmless(b, path, out)
    requires |imgs| > 0 && Laid(g, imgs[|imgs| - 1]) && c.v == ViewOf(g, imgs[|imgs| - 1])
    requires MkdirEnds(g, b.v, b.cat, imgs, |before|, T, out.rc, c.cat,
                       ParentDir(b.v, b.cat, Text83(path)), LeafName(LeafOf(Text83(path))), nc)
    ensures AllHeld(g, a, imgs, from, c, S + T)
  {
    hide WellFormedVolume, Keeps, Touched, Landed, SparedIn, Step, Text83, ParentDir, LeafOf, LeafName, ParentFits,
         ViewOf, Laid, Harmless;
    HarmlessSpares(b, path, out, c);
    KeepsTransitive(a.v, a.cat, b.v, b.cat, c.v, c.cat);
    LastSurvives(g, b.v, b.cat, imgs, |before|, T, out.rc, c.cat, ParentDir(b.v, b.cat, Text83(path)),
                 LeafName(LeafOf(Text83(path))), nc);
    ImagesHeld(g, a, before, imgs, from, b, S, T);
    SurvivesFrom(g, a.v, a.cat, b.v, b.cat, imgs[|imgs| - 1], S, T);
  }

  lemma LastSurvives(g: Geom, v: Volume, cat: Catalog, imgs: seq<Image>, from: nat, T: set<u16>, rc: int,
                     cat': Catalog, d: u16, name: Name11, nc: u16)
    requires MkdirEnds(g, v, cat, imgs, from, T, rc, cat', d, name, nc) && (rc == 0 ==> SparedIn(v, cat, d, name))
    ensures AllSurvive(g, v, cat, imgs, from, T) && Survives(g, v, cat, imgs[|imgs| - 1], T)
  {
    hide Survives, Landed, SparedIn, Keeps;
    forall k | from <= k < |imgs|
      ensures Survives(g, v, cat, imgs[k], T)
    {
      if rc == 0 && k < |imgs| - 1 {
        assert imgs[..|imgs| - 1][k] == imgs[k];
      }
    }
  }

  lemma TornHolds(g: Geom, a: State, before: seq<Image>, imgs: seq<Image>, from: nat, b: State, S: set<u16>,
                  T: set<u16>, rc: int, cat': Catalog, d: u16, name: Name11, nc: u16)
    requires AllHeld(g, a, before, from, b, S) && before <= imgs && rc != 0
    requires MkdirEnds(g, b.v, b.cat, imgs, |before|, T, rc, cat', d, name, nc)
    ensures AllSurvive(g, a.v, a.cat, imgs, from, S + T)
  {
    hide Survives, Keeps, Touched, Landed, SparedIn;
    ImagesHeld(g, a, before, imgs, from, b, S, T);
  }

  /**
   One mkdir after another, disk errors or not, up to one that is torn; if none is, every path
   has had its turn. If all steps are harmless, what a path led to at some point it leads to at
   every later one, and every image the medium has held, after any sector write of any step,
   holds all that the start held. Parents that fit make every step harmless that does not
   both meet an error and succeed.
   */
  method MkdirAll(fs: Fat16, paths: seq<seq<byte>>, ghost cat: Catalog)
    returns (outs: seq<Result>, torn: bool, ghost pts: seq<State>, ghost S: set<u16>)
    requires fs.Mounted() && WellFormedVolume(fs.View(), cat)
    modifies fs.disk
    ensures fs.Mounted() && old(fs.disk.trace) <= fs.disk.trace
    ensures IsRun(paths, outs, pts) && pts[0] == State(old(fs.View()), cat)
    ensures !torn ==> |outs| == |paths| && fs.View() == pts[|paths|].v
    ensures torn ==> |outs| < |paths| && !fs.disk.NoFaultSince(old(fs.disk.readFaults), old(fs.disk.writeFaults))
    ensures HarmlessFrom(paths, outs, pts, 0, |outs|) ==>
      && (forall i, j, path :: 0 <= i <= j <= |outs| && !Resolve(pts[i].v, pts[i].cat, path).Fail? ==>
            Resolve(pts[j].v, pts[j].cat, path) == Resolve(pts[i].v, pts[i].cat, path))
      && AllSurvive(fs.geo, old(fs.View()), cat, fs.disk.trace, |old(fs.disk.trace)|, S)
    ensures AllFit(paths) && (forall i :: 0 <= i < |outs| && outs[i].rc == 0 ==> outs[i].clean) ==>
      HarmlessFrom(paths, outs, pts, 0, |outs|)
  {
    hide ViewOf, Laid, WellFormedVolume, Step, Guarded, MkdirEnds, IsRun, Resolve, AllHeld, AllSurvive, ParentFits,
         Text83, ParentDir, LeafName, LeafOf, HarmlessFrom, Harmless;
    ghost var a, from := State(fs.View(), cat), |fs.disk.trace|;
    StartOfRun(paths, a);
    StartIsHeld(fs.geo, a, fs.disk.trace);
    outs, pts, S, torn := [], [a], {}, false;
    var i := 0;
    while i < |paths|
      invariant i == |outs| <= |paths| && fs.Mounted() && old(fs.disk.trace) <= fs.disk.trace
      invariant IsRun(paths, outs, pts) && |pts| == i + 1 && pts[0] == a && fs.View() == pts[i].v
      invariant WellFormedVolume(pts[i].v, pts[i].cat)
      invariant fs.disk.readFaults >= old(fs.disk.readFaults) && fs.disk.writeFaults >= old(fs.disk.writeFaults)
      invariant HarmlessFrom(paths, outs, pts, 0, i) ==> AllHeld(fs.geo, a, fs.disk.trace, from, pts[i], S)
    {
      var reads0, writes0 := fs.disk.readFaults, fs.disk.writeFaults;
      ghost var before, b, cat', nc, T := fs.disk.trace, pts[i], cat, 0, {};
      var rc;
      rc, torn, cat', nc, T := FsMkdir(fs, paths[i], b.cat);
      if torn {
        if HarmlessFrom(paths, outs, pts, 0, i) {
          TornHolds(fs.geo, a, before, fs.disk.trace, from, b, S, T, rc, cat',
                    ParentDir(b.v, b.cat, Text83(paths[i])), LeafName(LeafOf(Text83(paths[i]))), nc);
        }
        S := S + T;
        RunIsKept(paths, outs, pts);
        return;
      }
      var out := Result(rc, fs.disk.readFaults == reads0 && fs.disk.writeFaults == writes0);
      ghost var c := State(fs.View(), cat');
      RunGrows(paths, outs, pts, out, c);
      if HarmlessFrom(paths, outs + [out], pts + [c], 0, i + 1) {
        StepHolds(fs.geo, a, before, fs.disk.trace, from, b, S, T, paths[i], out, c, nc);
      }
      outs, pts, S, i := outs + [out], pts + [c], S + T, i + 1;
    }
    RunIsKept(paths, outs, pts);
    HeldSurvive(fs.geo, a, fs.disk.trace, from, pts[i], S);
  }

  lemma RunIsKept(paths: seq<seq<byte>>, outs: seq<Result>, pts: seq<State>)
    requires IsRun(paths, outs, pts)
    ensures HarmlessFrom(paths, outs, pts, 0, |outs|) ==>
      forall i, j, path :: 0 <= i <= j <= |outs| && !Resolve(pts[i].v, pts[i].cat, path).Fail? ==>
        Resolve(pts[j].v, pts[j].cat, path) == Resolve(pts[i].v, pts[i].cat, path)
    ensures AllFit(paths) && (forall i :: 0 <= i < |outs| && outs[i].rc == 0 ==> outs[i].clean) ==>
      HarmlessFrom(paths, outs, pts, 0, |outs|)
  {
    hide Step, WellFormedVolume, ParentFits, Resolve, SparesAll, Text83;
    if HarmlessFrom(paths, outs, pts, 0, |outs|) {
      forall i, j, path | 0 <= i <= j <= |outs| && !Resolve(pts[i].v, pts[i].cat, path).Fail?
        ensures Resolve(pts[j].v, pts[j].cat, path) == Resolve(pts[i].v, pts[i].cat, path)
      {
        RunKeeps(paths, outs, pts, i, j);
      }
    }
  }

  lemma HeldSurvive(g: Geom, a: State, imgs: seq<Image>, from: nat, b: State, S: set<u16>)
    ensures AllHeld(g, a, imgs, from, b, S) ==> AllSurvive(g, a.v, a.cat, imgs, from, S)
  {
    hide Keeps, Touched, AllSurvive;
  }

  lemma StartIsHeld(g: Geom, a: State, imgs: seq<Image>)
    requires WellFormedVolume(a.v, a.cat)
    ensures AllHeld(g, a, imgs, |imgs|, a, {})
  {
    hide WellFormedVolume, Keeps, Touched, Survives;
    KeepsItself(a.v, a.cat);
  }
}
