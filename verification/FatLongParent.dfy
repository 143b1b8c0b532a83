/**
 A mkdir whose parent text is cut at 127 characters, on a volume with two directories: it
 succeeds, and a path that was there leads to the new directory afterwards.
 */
module FatLongParent {
  import opened Bytes
  import opened Names83
  import opened FatVolume
  import opened FatTree
  import opened FatSteps
  import opened FatInsert
  import opened FatStat
  import opened FatWrite
  import opened FatMount
  import opened FatMkdir
  import opened FatMkdirPath
  import opened Path83
  import opened FsLayer
  import opened FatRun

  // ----- names -----

  const AA: seq<byte> := [0x41, 0x41]
  const B: seq<byte> := [0x42]
  const UP: seq<byte> := DOTDOT_KEY
  const NAME_AA: Name11 := Pad(AA, 8) + Pad([], 3)
  const NAME_B: Name11 := Pad(B, 8) + Pad([], 3)
  const NAME_GONE: Name11 := [0xE5] + Pad([], 10)

  lemma PlainName(s: seq<byte>)
    requires s == AA || s == B
    ensures Encode(s) == Ok(Pad(s, 8) + Pad([], 3)) && Key(Pad(s, 8) + Pad([], 3)) == s && Component(s)
  {
    assert Upper(s) == s;
    StemEndIs(s, 0, |s|);
    assert s[..|s|] == s;
    DecodePadded(s, []);
    KeyOfComponent(s);
  }

  lemma UpName()
    ensures Encode(UP).Ok? && Key(Encode(UP).name) == UP && Component(UP)
  {
    hide Encode, Pad, Decode;
    assert [] + ([DOT] + [DOT]) == UP && Upper([DOT]) == [DOT] && Upper([]) == [] && Upper(UP) == UP;
    EncodeFields([], [DOT]);
    DecodePadded([], [DOT]);
    KeyOfComponent(UP);
  }

  // ----- the volume -----

  // Directory 2 is AA; it holds a deleted slot and then directory 3, B. Cluster 4 is free.
  function SectorOfA(): Sector {
    PutSlot(PutSlot(DirSector(2, 0), 2, DirSlot(NAME_GONE, 0)), 3, DirSlot(NAME_B, 3))
  }

  function RootOfA(): Sector {
    PutSlot(ZeroSector(), 0, DirSlot(NAME_AA, 2))
  }

  function Fat(): seq<u16> {
    seq(256, c => if c == 4 then 0 else 0xFFFF)
  }

  function TwoDirs(): Volume {
    Volume([Fat()], [RootOfA()], [[SectorOfA()], [DirSector(3, 2)], [ZeroSector()]])
  }

  function TwoDirsCat(): Catalog {
    Catalog(map[2 := [2], 3 := [3]], {2, 3}, map[2 := (0, AA), 3 := (2, B)])
  }

  lemma OneSector(s: Sector, k: nat)
    requires k < 16
    ensures Slots([s])[k] == SlotOf(s, k) && |Slots([s])| == 16
  {
  }

  lemma {:induction false} ZerosAreNoEntries(slots: seq<Slot>, k: nat)
    requires k < |slots| && slots[k][0] == 0
    ensures LiveEntries(slots[k..]) == []
  {
    assert slots[k..][0] == slots[k];
  }

  lemma NextEntries(slots: seq<Slot>, k: nat)
    requires k < |slots| && slots[k][0] != 0
    ensures LiveEntries(slots[k..])
      == (if IsLive(slots[k]) then [EntryOf(slots[k])] else []) + LiveEntries(slots[k + 1..])
  {
    assert slots[k..][0] == slots[k] && slots[k..][1..] == slots[k + 1..];
  }

  lemma SlotsOfA(k: nat)
    requires k < 16
    ensures Slots([SectorOfA()])[k] ==
      if k == 0 then DirSlot(DOT_NAME, 2) else if k == 1 then DirSlot(DOTDOT_NAME, 0)
      else if k == 2 then DirSlot(NAME_GONE, 0) else if k == 3 then DirSlot(NAME_B, 3) else SlotOf(ZeroSector(), k)
  {
    OneSector(SectorOfA(), k);
    PutSlotReads(PutSlot(DirSector(2, 0), 2, DirSlot(NAME_GONE, 0)), 3, DirSlot(NAME_B, 3), k);
    PutSlotReads(DirSector(2, 0), 2, DirSlot(NAME_GONE, 0), k);
    DirSectorSlots(2, 0, k);
  }

  // The first bytes of the three names, and the entries their slots hold.
  lemma Starts()
    ensures NAME_AA[0] == 0x41 && NAME_B[0] == 0x42 && NAME_GONE[0] == 0xE5
    ensures IsLive(DirSlot(NAME_AA, 2)) && IsLive(DirSlot(NAME_B, 3)) && !IsLive(DirSlot(NAME_GONE, 0))
    ensures DirSlot(NAME_AA, 2)[0] == 0x41 && DirSlot(NAME_B, 3)[0] == 0x42 && DirSlot(NAME_GONE, 0)[0] == 0xE5
  {
    hide DirSlot, IsLive;
    DirSlotLive(NAME_AA, 2);
    DirSlotLive(NAME_B, 3);
    DirSlotLive(NAME_GONE, 0);
  }

  lemma ClosedAt(slots: seq<Slot>, n: nat)
    requires n <= |slots| && (forall k :: 0 <= k < n ==> slots[k][0] != 0)
    requires forall k :: n <= k < |slots| ==> slots[k][0] == 0
    ensures Closed(slots) && (n < |slots| ==> LiveEntries(slots[n..]) == [])
  {
    hide LiveEntries;
    if n < |slots| {
      ZerosAreNoEntries(slots, n);
    }
  }

  lemma EntriesOfA()
    ensures var slots := Slots([SectorOfA()]);
      && LiveEntries(slots) == DotEntries(2, 0) + [DirEntry(NAME_B, 3)] && Closed(slots)
      && LiveEntries(slots[..2]) == DotEntries(2, 0) && FirstFree(slots, 2)
  {
    hide DirSlot, SectorOfA, Slots, LiveEntries, Closed, DotEntries, FirstFree, Pad;
    var slots := Slots([SectorOfA()]);
    OneSector(SectorOfA(), 0);
    forall k | 4 <= k < 16
      ensures slots[k][0] == 0
    {
      SlotsOfA(k);
    }
    SlotsOfA(0);
    SlotsOfA(1);
    SlotsOfA(2);
    SlotsOfA(3);
    ListOfA(slots);
  }

  lemma ListOfA(slots: seq<Slot>)
    requires |slots| == 16 && slots[0] == DirSlot(DOT_NAME, 2) && slots[1] == DirSlot(DOTDOT_NAME, 0)
    requires slots[2] == DirSlot(NAME_GONE, 0) && slots[3] == DirSlot(NAME_B, 3)
    requires forall k :: 4 <= k < 16 ==> slots[k][0] == 0
    ensures LiveEntries(slots) == DotEntries(2, 0) + [DirEntry(NAME_B, 3)] && Closed(slots)
    ensures LiveEntries(slots[..2]) == DotEntries(2, 0) && FirstFree(slots, 2)
  {
    hide DirSlot, Slots, LiveEntries, Closed, DotEntries, Pad, IsLive;
    DotsFirst(slots);
    Starts();
    ClosedAt(slots, 4);
    NextEntries(slots, 2);
    NextEntries(slots, 3);
    assert slots == slots[..2] + slots[2..];
    LiveConcat(slots[..2], slots[2..]);
  }

  lemma DotsFirst(slots: seq<Slot>)
    requires |slots| == 16 && slots[0] == DirSlot(DOT_NAME, 2) && slots[1] == DirSlot(DOTDOT_NAME, 0)
    ensures LiveEntries(slots[..2]) == DotEntries(2, 0) && slots[0][0] == slots[1][0] == DOT
    ensures !IsFree(slots[0]) && !IsFree(slots[1])
  {
    hide DirSlot;
    DotSlotsLive(2);
    DotSlotsLive(0);
    DirSlotLive(DOT_NAME, 2);
    DirSlotLive(DOTDOT_NAME, 0);
    var two := slots[..2];
    assert two[0] == slots[0] && two[1] == slots[1];
    NextEntries(two, 0);
    NextEntries(two, 1);
    assert two[0..] == two && two[2..] == [];
  }

  lemma EntriesOfB()
    ensures LiveEntries(Slots([DirSector(3, 2)])) == DotEntries(3, 2) && Closed(Slots([DirSector(3, 2)]))
  {
    NewDirEntries(1, 3, 2);
    assert NewDir(1, 3, 2) == [DirSector(3, 2)];
  }

  lemma EntriesOfRoot()
    ensures LiveEntries(Slots([RootOfA()])) == [DirEntry(NAME_AA, 2)] && Closed(Slots([RootOfA()]))
  {
    hide DirSlot, Slots, LiveEntries, Closed, Pad, IsLive;
    var slots := Slots([RootOfA()]);
    OneSector(RootOfA(), 0);
    PutSlotReads(ZeroSector(), 0, DirSlot(NAME_AA, 2), 0);
    forall k | 1 <= k < 16
      ensures slots[k][0] == 0
    {
      OneSector(RootOfA(), k);
      PutSlotReads(ZeroSector(), 0, DirSlot(NAME_AA, 2), k);
    }
    Starts();
    NextEntries(slots, 0);
    ClosedAt(slots, 1);
    assert slots[0..] == slots;
  }

  lemma Listings()
    ensures var v, cat := TwoDirs(), TwoDirsCat();
      && DirSecs(v, cat, 0) == [RootOfA()] && DirSecs(v, cat, 2) == [SectorOfA()]
        && DirSecs(v, cat, 3) == [DirSector(3, 2)]
      && Entries(v, cat, 0) == [DirEntry(NAME_AA, 2)]
      && Entries(v, cat, 2) == DotEntries(2, 0) + [DirEntry(NAME_B, 3)]
      && Entries(v, cat, 3) == DotEntries(3, 2)
  {
    hide RootOfA, SectorOfA, DirSector, LiveEntries, Slots;
    var v, cat := TwoDirs(), TwoDirsCat();
    assert Secs(v.data, [2]) == Cluster(v.data, 2) + Secs(v.data, []);
    assert Secs(v.data, [3]) == Cluster(v.data, 3) + Secs(v.data, []);
    EntriesOfRoot();
    EntriesOfA();
    EntriesOfB();
  }

  lemma TwoDirsShape()
    ensures var v, cat := TwoDirs(), TwoDirsCat(); Shaped(v) && FatOk(v) && ChainsOk(v, cat)
  {
    hide RootOfA, SectorOfA, DirSector;
    var v, cat := TwoDirs(), TwoDirsCat();
    assert v.fat[0][2] == 0xFFFF && v.fat[0][3] == 0xFFFF;
    assert IsChain(v, [2]) && IsChain(v, [3]);
  }

  lemma TwoDirsWellFormed()
    ensures WellFormedVolume(TwoDirs(), TwoDirsCat())
  {
    hide TwoDirs, Entries, DirSecs, LiveEntries, Slots, Key, RootOfA, SectorOfA, DirSector, Shaped, FatOk, ChainsOk;
    var v, cat := TwoDirs(), TwoDirsCat();
    TwoDirsShape();
    Listings();
    EntriesOfRoot();
    EntriesOfA();
    EntriesOfB();
    PlainName(AA);
    PlainName(B);
    DotKeys();
    forall d | IsDirOf(cat, d)
      ensures DirOk(v, cat, d)
    {
      assert d == 0 || d == 2 || d == 3;
    }
  }

  // ----- the medium -----

  function FatSector(): Sector {
    seq(512, i => if i == 8 || i == 9 then 0 else 0xFF)
  }

  function Medium(): Image {
    [PlainBoot(16), FatSector(), RootOfA(), SectorOfA(), DirSector(3, 2), ZeroSector()]
  }

  const LAYOUT := Geom(1, 1, 16, 1, 1, 2, 3, 3)

  /** The volume is what a medium holds that mounts. */
  lemma TwoDirsIsMounted()
    ensures MountCode(Medium()[0]) == 0 && GeomOf(Medium()[0], 0, 3) == LAYOUT && Laid(LAYOUT, Medium())
    ensures ViewOf(LAYOUT, Medium()) == TwoDirs()
  {
    hide RootOfA, SectorOfA, DirSector;
    var v := ViewOf(LAYOUT, Medium());
    forall c: nat | c < 256
      ensures Cell(LAYOUT, Medium(), 0, c) == Fat()[c]
    {
      assert FatSec(LAYOUT, 0, c) == 1;
    }
    assert FatOf(LAYOUT, Medium(), 0) == Fat();
    assert v.fat == [Fat()] && v.root == [RootOfA()];
    assert ClusterOf(LAYOUT, Medium(), 0) == [SectorOfA()] && ClusterOf(LAYOUT, Medium(), 1) == [DirSector(3, 2)];
    assert ClusterOf(LAYOUT, Medium(), 2) == [ZeroSector()];
  }

  // ----- the path -----

  // AA/B and then k times down from AA again.
  function Deep(k: nat): (t: seq<byte>)
    ensures |t| == 4 + 5 * k && 0 !in t && t[0] == 0x41 && t[|t| - 1] == 0x42
  {
    if k == 0 then AA + [SLASH] + B else Deep(k - 1) + [SLASH] + UP + [SLASH] + B
  }

  function DeepComps(k: nat): seq<seq<byte>> {
    if k == 0 then [AA, B] else DeepComps(k - 1) + [UP] + [B]
  }

  lemma {:induction false} DeepComponents(k: nat)
    ensures Components(Deep(k)) == DeepComps(k)
  {
    hide Components, Encode, Key, Pad;
    PlainName(AA);
    PlainName(B);
    UpName();
    if k == 0 {
      ComponentsOfLeaf(AA);
      ComponentsSnoc(AA, SLASH, B);
    } else {
      DeepComponents(k - 1);
      ComponentsSnoc(Deep(k - 1), SLASH, UP);
      ComponentsSnoc(Deep(k - 1) + [SLASH] + UP, SLASH, B);
    }
  }

  lemma StepTo(comps: seq<seq<byte>>, c: seq<byte>)
    ensures Walk(TwoDirs(), TwoDirsCat(), comps + [c])
         == Look(TwoDirs(), TwoDirsCat(), Walk(TwoDirs(), TwoDirsCat(), comps), c)
  {
    WalkSnoc(TwoDirs(), TwoDirsCat(), comps, c);
  }

  const SPOT_A: Spot := Found(DirEntry(NAME_AA, 2))
  const SPOT_B: Spot := Found(DirEntry(NAME_B, 3))
  const SPOT_UP: Spot := Found(Entry(DOTDOT_NAME, ATTR_DIR, 2, 0))

  lemma AmongDots(c: u16, p: u16)
    ensures Lookup(DotEntries(c, p), UP) == Some(Entry(DOTDOT_NAME, ATTR_DIR, p, 0))
      && Lookup(DotEntries(c, p), B) == None
  {
    hide Key;
    DotKeys();
    var dots := DotEntries(c, p);
    assert dots[1..] == [Entry(DOTDOT_NAME, ATTR_DIR, p, 0)] && dots[1..][1..] == [];
    assert B[0] != UP[0] && B[0] != DOT_KEY[0];
    assert Lookup(dots, UP) == Lookup(dots[1..], UP) && Lookup(dots, B) == Lookup(dots[1..], B);
    assert Lookup(dots[1..], B) == Lookup(dots[1..][1..], B) == None;
  }

  // What each name finds from each place.
  lemma Steps()
    ensures var v, cat := TwoDirs(), TwoDirsCat();
      && Look(v, cat, AtRoot, AA) == SPOT_A && Look(v, cat, SPOT_A, B) == SPOT_B && Look(v, cat, SPOT_UP, B) == SPOT_B
      && Look(v, cat, SPOT_B, UP) == SPOT_UP && Look(v, cat, SPOT_B, B) == Fail(1)
  {
    hide TwoDirs, Encode, Key, LiveEntries, Slots, Entries, DotEntries;
    Listings();
    PlainName(AA);
    PlainName(B);
    UpName();
    AmongDots(2, 0);
    AmongDots(3, 2);
    LookupConcat(DotEntries(2, 0), [DirEntry(NAME_B, 3)], B);
  }

  lemma {:induction false} DeepWalk(k: nat)
    ensures Walk(TwoDirs(), TwoDirsCat(), DeepComps(k)) == SPOT_B
  {
    hide TwoDirs, Look;
    Steps();
    if k == 0 {
      StepTo([], AA);
      StepTo([AA], B);
      assert [] + [AA] == [AA] && [AA] + [B] == [AA, B];
    } else {
      DeepWalk(k - 1);
      StepTo(DeepComps(k - 1), UP);
      StepTo(DeepComps(k - 1) + [UP], B);
    }
  }

  /** AA/B, 25 times ../B, and another B: 131 characters. */
  function LongPath(): seq<byte> { Deep(25) + [SLASH] + B }

  lemma {:induction false} DeepText(k: nat)
    ensures DeepComps(k) != [] && Render(DeepComps(k)) == Deep(k)
  {
    hide Render, Encode, Key;
    if k == 0 {
      RenderSnoc([], AA);
      RenderSnoc([AA], B);
      assert [] + [AA] == [AA] && [AA] + [B] == [AA, B];
    } else {
      DeepText(k - 1);
      RenderSnoc(DeepComps(k - 1), UP);
      RenderSnoc(DeepComps(k - 1) + [UP], B);
    }
  }

  lemma {:induction false} DeepUpper(k: nat)
    ensures forall i :: 0 <= i < |DeepComps(k)| ==> Upper(DeepComps(k)[i]) == DeepComps(k)[i]
  {
    hide Upper;
    AlreadyUpper();
    if k > 0 {
      DeepUpper(k - 1);
    }
  }

  lemma AlreadyUpper()
    ensures Upper(AA) == AA && Upper(UP) == UP && Upper(B) == B
  {
  }

  /** The path is in the form that `fs_mkdir` hands on. */
  lemma LongPathIsNormal()
    ensures Text83(LongPath()) == LongPath()
  {
    hide Render, Upper, Components, Deep, DeepComps;
    var comps := DeepComps(25) + [B];
    DeepText(25);
    DeepUpper(25);
    DeepComponents(25);
    PlainName(B);
    AlreadyUpper();
    ComponentsSnoc(Deep(25), SLASH, B);
    NormRenders(LongPath(), PATH_CAP);
    RenderSnoc(DeepComps(25), B);
    assert UpperAll(comps) == comps;
  }

  // The parent that is meant, and the one that is left of it.
  lemma CutParent()
    ensures 0 !in LongPath() && |LongPath()| == 131 && LeafOf(LongPath()) == B
    ensures FullParent(LongPath()) == Deep(25) && ParentOf(LongPath()) == Deep(24) + [SLASH] + UP
  {
    var p := LongPath();
    assert Lead(p) == 0 && p[0..] == p;
    assert p[|p| - 1] == 0x42 && IsSep(p[|p| - 2]);
    assert AfterLastSep(p) == |p| - 1 by {
      assert AfterLastSep(p) == AfterLastSep(p[..|p| - 1]);
    }
    assert p[..|p| - 2] == Deep(25) && p[|p| - 1..] == B;
    assert Deep(25) == Deep(24) + [SLASH] + UP + [SLASH] + B;
    assert Deep(25)[..127] == Deep(24) + [SLASH] + UP;
  }

  lemma LongPathResolves()
    ensures var v, cat, p := TwoDirs(), TwoDirsCat(), LongPath();
      Resolve(v, cat, ParentOf(p)) == SPOT_UP && Resolve(v, cat, FullParent(p)) == SPOT_B
        && Resolve(v, cat, p) == Fail(1)
  {
    hide TwoDirs, Look, Walk, ParentOf, FullParent, Components, Deep, DeepComps, Encode, Key;
    CutParent();
    DeepComponents(24);
    DeepComponents(25);
    DeepWalk(24);
    DeepWalk(25);
    Steps();
    PlainName(B);
    UpName();
    ComponentsSnoc(Deep(24), SLASH, UP);
    ComponentsSnoc(Deep(25), SLASH, B);
    StepTo(DeepComps(24), UP);
    StepTo(DeepComps(25), B);
  }

  /**
   On this medium, whose volume is well formed, a mkdir of this path, which `fs_mkdir` hands
   on as it is, succeeds if no fault occurs; its parent is cut to a directory that already has
   the name, behind a free slot; and afterwards the old path AA/B leads to the new directory
   instead of directory 3.
   */
  lemma LongParentShadows()
    ensures var v, cat, p := TwoDirs(), TwoDirsCat(), LongPath();
      && MountCode(Medium()[0]) == 0 && GeomOf(Medium()[0], 0, 3) == LAYOUT
      && Laid(LAYOUT, Medium()) && ViewOf(LAYOUT, Medium()) == v
      && WellFormedVolume(v, cat) && 0 !in p && !ParentFits(p) && CanMkdir(v, cat, p)
      && !SparesAll(v, cat, p) && Text83(p) == p
      && Resolve(v, cat, Deep(0)) == Found(DirEntry(NAME_B, 3))
    ensures var v, cat, p := TwoDirs(), TwoDirsCat(), LongPath();
      forall w, cat', nc: u16 :: Landed(v, cat, w, cat', ParentDir(v, cat, p), LeafName(LeafOf(p)), nc) ==>
        Resolve(w, cat', Deep(0)) == Found(DirEntry(NAME_B, nc))
  {
    hide *;
    var v, cat, p := TwoDirs(), TwoDirsCat(), LongPath();
    TwoDirsIsMounted();
    TwoDirsWellFormed();
    LongPathIsNormal();
    CutParent();
    DeepIs(0);
    LongPathCan();
    NotSpared();
    SparesAllIs(v, cat, p);
    forall w, cat', nc: u16 | Landed(v, cat, w, cat', ParentDir(v, cat, p), LeafName(LeafOf(p)), nc)
      ensures Resolve(w, cat', Deep(0)) == Found(DirEntry(NAME_B, nc))
    {
      Afterwards(w, cat', nc);
    }
  }

  lemma SparesAllIs(v: Volume, cat: Catalog, p: seq<byte>)
    ensures SparesAll(v, cat, p) <==> SparedIn(v, cat, ParentDir(v, cat, p), LeafName(LeafOf(p)))
  {
    hide SparedIn, ParentDir, LeafName, LeafOf;
  }

  lemma DeepIs(k: nat)
    ensures Resolve(TwoDirs(), TwoDirsCat(), Deep(k)) == Found(DirEntry(NAME_B, 3))
  {
    hide Walk, Components, Deep, DeepComps;
    DeepComponents(k);
    DeepWalk(k);
  }

  lemma LongPathCan()
    ensures var v, cat, p := TwoDirs(), TwoDirsCat(), LongPath();
      ParentDir(v, cat, p) == 2 && LeafName(LeafOf(p)) == NAME_B && CanMkdir(v, cat, p) && !ParentFits(p)
  {
    hide TwoDirs, Resolve, ParentOf, FullParent, LeafOf, LongPath, Encode, Key, Pad, CanMake, Deep;
    CutParent();
    LongPathResolves();
    PlainName(B);
    RoomInA();
    assert ParentOf(LongPath()) != [];
  }

  lemma NotSpared()
    ensures !SparedIn(TwoDirs(), TwoDirsCat(), 2, NAME_B)
    ensures Lookup(Entries(TwoDirs(), TwoDirsCat(), 2), B) == Some(DirEntry(NAME_B, 3)) && Key(NAME_B) == B
  {
    hide LiveEntries, Slots, Key, SectorOfA, RootOfA, DirSector, TwoDirs;
    Listings();
    EntriesOfA();
    PlainName(B);
    DotKeys();
    LookupConcat(DotEntries(2, 0), [DirEntry(NAME_B, 3)], B);
    var slots := Slots([SectorOfA()]);
    assert FirstFree(slots, 2) && Lookup(LiveEntries(slots[..2]), B) == None;
    assert NAME_B[0] == 0x42;
  }

  lemma RoomInA()
    ensures CanMake(TwoDirs(), TwoDirsCat(), false, 2, B)
  {
    hide LiveEntries, Slots, Encode, Key, SectorOfA, RootOfA, DirSector;
    Listings();
    EntriesOfA();
    PlainName(B);
    var f := TwoDirs().fat[0];
    assert f == Fat() && |f| == 256 && f[4] == 0;
    assert NextFree(f, 2) <= 4;
  }

  lemma AfterLanding(w: Volume, cat': Catalog, nc: u16)
    requires Landed(TwoDirs(), TwoDirsCat(), w, cat', 2, NAME_B, nc)
    ensures 2 in cat'.dirs && Entries(w, cat', 0) == [DirEntry(NAME_AA, 2)]
    ensures Lookup(Entries(w, cat', 2), B) == Some(DirEntry(NAME_B, nc))
  {
    hide LiveEntries, Slots, Encode, Key, Pad, TwoDirs, WellFormedVolume, Inserted, KeepsFiles, SparedIn, Entries;
    NotSpared();
    Listings();
    BStarts();
    assert IsDirOf(TwoDirsCat(), 0);
  }

  lemma BStarts()
    ensures NAME_B[0] == 0x42
  {
  }

  lemma Afterwards(w: Volume, cat': Catalog, nc: u16)
    requires Landed(TwoDirs(), TwoDirsCat(), w, cat', 2, NAME_B, nc)
    ensures Resolve(w, cat', Deep(0)) == Found(DirEntry(NAME_B, nc))
  {
    hide LiveEntries, Slots, Encode, Key, Pad, TwoDirs, WellFormedVolume, Inserted, KeepsFiles, SparedIn, Entries,
         Components;
    NotSpared();
    Listings();
    PlainName(AA);
    PlainName(B);
    DeepComponents(0);
    AfterLanding(w, cat', nc);
    WalkSnoc(w, cat', [], AA);
    WalkSnoc(w, cat', [AA], B);
    assert [] + [AA] == [AA] && [AA] + [B] == [AA, B];
    assert Look(w, cat', AtRoot, AA) == SPOT_A;
  }
}
