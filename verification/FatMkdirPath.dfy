/** `split_parent_leaf` and `fat16_mkdir_path83` as a whole. */
module FatMkdirPath {
  import opened Bytes
  import opened Names83
  import opened FatVolume
  import opened FatTree
  import opened FatSteps
  import opened FatInsert
  import opened FatMount
  import opened FatStat
  import opened FatWrite
  import opened FatStages
  import opened FatMkdir
  import opened FatTreeChange

  // ----- the text of a path -----

  // First index that is not a leading separator.
  function Lead(s: seq<byte>): (r: nat)
    ensures r <= |s| && (r < |s| ==> !IsSep(s[r])) && forall k :: 0 <= k < r ==> IsSep(s[k])
  {
    if s == [] || !IsSep(s[0]) then 0 else 1 + Lead(s[1..])
  }

  // One past the last separator, or 0 if there is none.
  function AfterLastSep(s: seq<byte>): (r: nat)
    ensures r <= |s| && (r > 0 ==> IsSep(s[r - 1])) && forall k :: r <= k < |s| ==> !IsSep(s[k])
  {
    if s == [] then 0
    else if IsSep(s[|s| - 1]) then |s|
    else AfterLastSep(s[..|s| - 1])
  }

  function Cap(s: seq<byte>, n: nat): (r: seq<byte>)
    ensures |r| <= n && r <= s
  {
    if |s| <= n then s else s[..n]
  }

  function FullParent(path: seq<byte>): seq<byte> {
    var p := path[Lead(path)..];
    if AfterLastSep(p) == 0 then [] else p[..AfterLastSep(p) - 1]
  }

  function FullLeaf(path: seq<byte>): seq<byte> {
    var p := path[Lead(path)..];
    p[AfterLastSep(p)..]
  }

  // The texts the driver goes on with: at most 127 and 63 characters.
  function ParentOf(path: seq<byte>): seq<byte> { Cap(FullParent(path), 127) }

  function LeafOf(path: seq<byte>): seq<byte> { Cap(FullLeaf(path), 63) }

  /** `split_parent_leaf` with the buffer sizes of its caller. */
  method SplitParentLeaf(path: seq<byte>) returns (rc: int, parent: seq<byte>, leaf: seq<byte>)
    ensures parent == ParentOf(path) && leaf == LeafOf(path)
    ensures rc == if leaf != [] then 0 else if AfterLastSep(path[Lead(path)..]) == 0 then -2 else -3
  {
    hide AfterLastSep;
    var pos := 0;
    while pos < |path| && IsSep(path[pos])
      invariant pos <= Lead(path)
    {
      pos := pos + 1;
    }
    var p := path[pos..];
    var last := LastSep(p);
    if last < 0 {
      leaf := CopyCapped(p, 63);
      return if leaf != [] then 0 else -2, [], leaf;
    }
    parent := CopyCapped(p[..last], 127);
    leaf := CopyCapped(p[last + 1..], 63);
    return if leaf != [] then 0 else -3, parent, leaf;
  }

  // The loop for the last separator, or -1 if there is none.
  method LastSep(p: seq<byte>) returns (last: int)
    ensures last + 1 == AfterLastSep(p)
  {
    last := -1;
    var i := 0;
    while i < |p|
      invariant 0 <= i <= |p| && -1 <= last < i
      invariant last >= 0 ==> IsSep(p[last])
      invariant forall k :: last < k < i ==> !IsSep(p[k])
    {
      if IsSep(p[i]) {
        last := i;
      }
      i := i + 1;
    }
  }

  // The bounded copy loops.
  method CopyCapped(s: seq<byte>, cap: nat) returns (r: seq<byte>)
    ensures r == Cap(s, cap)
  {
    r := [];
    var n := 0;
    while n < |s| && n < cap
      invariant n <= |s| && n <= cap && r == s[..n]
    {
      r := r + [s[n]];
      n := n + 1;
    }
  }

  lemma ComponentsOfLeaf(s: seq<byte>)
    requires Component(s) && s != []
    ensures Components(s) == [s]
  {
    assert NameEnd(s, 0) == |s|;
    assert s[..|s|] == s && s[|s|..] == [];
  }

  /** The components of "parent/leaf" are those of the parent, and the leaf. */
  lemma {:induction false} ComponentsSnoc(a: seq<byte>, c: byte, leaf: seq<byte>)
    requires 0 !in a && IsSep(c) && Component(leaf) && leaf != []
    ensures Components(a + [c] + leaf) == Components(a) + [leaf]
    decreases |a|
  {
    var s := a + [c] + leaf;
    if a == [] {
      assert s[1..] == leaf;
      ComponentsOfLeaf(leaf);
    } else if IsSep(a[0]) {
      assert s[1..] == a[1..] + [c] + leaf;
      ComponentsSnoc(a[1..], c, leaf);
    } else {
      var e := NameEnd(a, 0);
      assert e > 0;
      NameEndAt(s, 0, e);
      assert s[..e] == a[..e] && s[e..] == a[e..] + [c] + leaf;
      ComponentsSnoc(a[e..], c, leaf);
      assert [a[..e]] + (Components(a[e..]) + [leaf]) == ([a[..e]] + Components(a[e..])) + [leaf];
    }
  }

  lemma {:induction false} SkipLead(path: seq<byte>)
    ensures Components(path) == Components(path[Lead(path)..])
    decreases |path|
  {
    if path != [] && IsSep(path[0]) {
      SkipLead(path[1..]);
      assert path[1..][Lead(path[1..])..] == path[Lead(path)..];
    } else {
      assert path[0..] == path;
    }
  }

  /**
   With a parent text of at most 127 characters (and a leaf that fits 63), the two pieces
   name exactly the directory and entry the whole path names.
   */
  lemma SplitComponents(path: seq<byte>)
    requires 0 !in path && |FullParent(path)| <= 127 && |FullLeaf(path)| <= 63 && FullLeaf(path) != []
    ensures Component(LeafOf(path)) && Components(path) == Components(ParentOf(path)) + [LeafOf(path)]
    ensures ParentOf(path) == [] || Components(ParentOf(path)) != []
  {
    hide Components, AfterLastSep, Component;
    var p := path[Lead(path)..];
    SkipLead(path);
    assert forall k :: 0 <= k < |p| ==> p[k] == path[Lead(path) + k];
    SplitAt(p);
  }

  lemma SplitAt(p: seq<byte>)
    requires 0 !in p && AfterLastSep(p) < |p| && (p != [] ==> !IsSep(p[0]))
    ensures var r := AfterLastSep(p);
      var parent := if r == 0 then [] else p[..r - 1];
      && Component(p[r..]) && Components(p) == Components(parent) + [p[r..]]
      && (parent == [] || Components(parent) != [])
  {
    var r := AfterLastSep(p);
    assert forall k :: 0 <= k < |p| - r ==> p[r..][k] == p[r + k];
    if r == 0 {
      assert p[0..] == p;
      ComponentsOfLeaf(p);
    } else {
      assert p == p[..r - 1] + [p[r - 1]] + p[r..];
      ComponentsSnoc(p[..r - 1], p[r - 1], p[r..]);
      if r > 1 {
        assert p[..r - 1][0] == p[0] && !EndsName(p[0]);
      }
    }
  }

  lemma EncodableIsShort(s: seq<byte>)
    requires Component(s) && Encode(s).Ok?
    ensures |s| <= 12
  {
    EncodeShape(s);
  }

  // ----- the directory is made in a known parent -----

  // Parent and leaf as `fat16_mkdir_path83` has them once the parent is resolved.
  ghost predicate ParentKnown(cat: Catalog, isRoot: bool, pc: u16) {
    if isRoot then pc == 0 else pc < 2 || pc in cat.dirs
  }

  // The first two writes' worth, and then whatever the parent needs.
  ghost predicate CanMake(v: Volume, cat: Catalog, isRoot: bool, pc: u16, leaf: seq<byte>) {
    HasFree(v) && Encode(leaf).Ok? && HasRoom(v, cat, isRoot, pc)
  }

  // What an insertion in the chain of cluster pc answers, without a fault.
  function ChainCode(pc: u16, full: bool, canGrow: bool): int {
    if pc < 2 then -11 else if full && !canGrow then -3 else 0
  }

  // What `MakeIn` answers, without a fault.
  ghost function MakeCode(v: Volume, cat: Catalog, isRoot: bool, pc: u16, leaf: seq<byte>): int {
    if !HasFree(v) then -3
    else if Encode(leaf).Bad? then -6
    else if isRoot then if Full(Slots(v.root)) then -10 else 0
    else ChainCode(pc, Full(Slots(DirSecs(v, cat, pc))), HasTwoFree(v))
  }

  // The 11 bytes of a leaf that can be encoded.
  function LeafName(leaf: seq<byte>): Name11 {
    if Encode(leaf).Ok? then Encode(leaf).name else Pad([], 11)
  }

  // The lowest free cluster has become that of the new directory.
  ghost predicate TookFree(v: Volume, w: Volume, nc: u16) {
    HasFree(v) && nc == NextFree(v.fat[0], 2) && Marked(w, nc)
  }

  lemma MakeCodeZero(v: Volume, cat: Catalog, isRoot: bool, pc: u16, leaf: seq<byte>)
    requires WellFormedVolume(v, cat) && ParentKnown(cat, isRoot, pc)
    ensures MakeCode(v, cat, isRoot, pc, leaf) == 0 <==> CanMake(v, cat, isRoot, pc, leaf)
    ensures pc < 2 ==> pc !in cat.dirs
  {
    hide WellFormedVolume, HasFree, HasTwoFree, Full, Slots, DirSecs, Encode, IsChain;
    DirsAreChains(v, cat);
  }

  /** Everything after the parent is resolved. */
  method MakeIn(fs: Fat16, isRoot: bool, pc: u16, leaf: seq<byte>, ghost cat: Catalog)
    returns (rc: int, torn: bool, ghost cat': Catalog, ghost nc: u16, ghost S: set<u16>)
    requires fs.Mounted() && WellFormedVolume(fs.View(), cat) && ParentKnown(cat, isRoot, pc) && Component(leaf)
    modifies fs.disk
    ensures fs.Mounted() && rc <= 0 && old(fs.disk.trace) <= fs.disk.trace && |S| <= 2
    ensures fs.disk.readFaults >= old(fs.disk.readFaults) && fs.disk.writeFaults >= old(fs.disk.writeFaults)
    ensures MkdirEnds(fs.geo, old(fs.View()), cat, fs.disk.trace, |old(fs.disk.trace)|, S, rc,
                      cat', if isRoot then 0 else pc, LeafName(leaf), nc)
    ensures rc == 0 ==> Encode(leaf).Ok? && (isRoot || pc in cat.dirs)
    ensures rc == 0 ==> TookFree(old(fs.View()), fs.View(), nc)
    ensures torn ==> rc != 0 && !fs.disk.NoFaultSince(old(fs.disk.readFaults), old(fs.disk.writeFaults))
    ensures rc != 0 && !torn ==> Reached(old(fs.View()), cat, fs.View(), cat', S)
    ensures rc != 0 && fs.disk.NoFaultSince(old(fs.disk.readFaults), old(fs.disk.writeFaults)) ==> cat' == cat
    ensures fs.disk.NoFaultSince(old(fs.disk.readFaults), old(fs.disk.writeFaults)) ==>
      rc == MakeCode(old(fs.View()), cat, isRoot, pc, leaf)
  {
    hide ViewOf, Laid, WellFormedVolume, Keeps, Survives, AllSurvive, Touched, HoldsNewDir, SlotPlace, Landed,
         Guarded, SparedIn, SameSpared, MkdirEnds, Entries, Key, Encode, Reached, LoneCluster, Slots, Full,
         FirstFree, SlotFound;
    ghost var v, from := fs.View(), |fs.disk.trace|;
    var made;
    cat', torn := cat, false;
    rc, made, S := NewDirCluster(fs, if isRoot then 0 else pc, cat);
    nc := made;
    ghost var d: u16 := if isRoot then 0 else pc;
    if rc != 0 {
      EndsEarly(fs.geo, v, cat, fs.disk.trace, from, S, rc, cat', d, LeafName(leaf), nc);
      return;
    }
    var name := new byte[11];
    rc := MakeName11(leaf, name);
    if rc != 0 {
      EndsEarly(fs.geo, v, cat, fs.disk.trace, from, S, -6, cat', d, LeafName(leaf), nc);
      return -6, false, cat', nc, S;
    }
    EncodeFirstByte(leaf);
    if isRoot {
      rc, cat' := MakeInRoot(fs, name[..], made, v, cat, S, from);
    } else {
      rc, torn, cat', S := MakeInChain(fs, pc, name[..], made, v, cat, S, from);
    }
  }

  method MakeInRoot(fs: Fat16, name: Name11, nc: u16, ghost v: Volume, ghost cat: Catalog, ghost S: set<u16>,
                    ghost from: nat)
    returns (rc: int, ghost cat': Catalog)
    requires fs.Mounted() && LoneCluster(fs.View(), cat, nc) && HoldsNewDir(fs.View(), 0, nc)
    requires WellFormedVolume(v, cat) && name[0] != 0 && Reached(v, cat, fs.View(), cat, S)
    requires SameDirSecs(v, fs.View(), cat)
    requires AllSurvive(fs.geo, v, cat, fs.disk.trace, from, S) && Survives(fs.geo, v, cat, fs.disk.sectors, S)
    modifies fs.disk
    ensures fs.Mounted() && rc <= 0 && old(fs.disk.trace) <= fs.disk.trace
    ensures fs.disk.readFaults >= old(fs.disk.readFaults) && fs.disk.writeFaults >= old(fs.disk.writeFaults)
    ensures MkdirEnds(fs.geo, v, cat, fs.disk.trace, from, S, rc, cat', 0, name, nc)
    ensures rc == 0 ==> Marked(fs.View(), nc)
    ensures rc != 0 ==> Reached(v, cat, fs.View(), cat', S) && cat' == cat
    ensures fs.disk.NoFaultSince(old(fs.disk.readFaults), old(fs.disk.writeFaults)) ==>
      rc == if Full(Slots(v.root)) then -10 else 0
  {
    hide ViewOf, Laid, WellFormedVolume, Keeps, Survives, AllSurvive, Touched, HoldsNewDir, Landed, Guarded,
         SparedIn, SameSpared, MkdirEnds, Entries, Key, Reached, LoneCluster, Slots;
    var lba, ei;
    cat' := cat;
    assert DirSecs(fs.View(), cat, 0) == v.root by { assert IsDirOf(cat, 0); }
    rc, lba, ei := FindFreeRoot(fs);
    if rc != 0 {
      EndsEarly(fs.geo, v, cat, fs.disk.trace, from, S, rc, cat', 0, name, nc);
      return;
    }
    SameSecsSpared(v, fs.View(), cat, 0, name);
    RootIndex(fs.geo, fs.disk.sectors, lba);
    rc, cat' := Finish(fs, lba, ei, name, nc, v, cat, cat, S, from, 0, lba - fs.geo.rootLba, 0, 0);
  }

  lemma RootIndex(g: Geom, img: Image, lba: nat)
    requires Laid(g, img) && g.rootLba <= lba < g.dataLba
    ensures lba - g.rootLba < |ViewOf(g, img).root|
  {
  }

  method MakeInChain(fs: Fat16, pc: u16, name: Name11, nc: u16, ghost v: Volume, ghost cat: Catalog,
                     ghost S0: set<u16>, ghost from: nat)
    returns (rc: int, torn: bool, ghost cat': Catalog, ghost S: set<u16>)
    requires fs.Mounted() && LoneCluster(fs.View(), cat, nc) && HoldsNewDir(fs.View(), pc, nc) && |S0| <= 1
    requires WellFormedVolume(v, cat) && name[0] != 0 && Reached(v, cat, fs.View(), cat, S0)
    requires SameDirSecs(v, fs.View(), cat)
    requires pc < 2 || pc in cat.dirs
    requires AllSurvive(fs.geo, v, cat, fs.disk.trace, from, S0) && Survives(fs.geo, v, cat, fs.disk.sectors, S0)
    modifies fs.disk
    ensures fs.Mounted() && rc <= 0 && old(fs.disk.trace) <= fs.disk.trace && |S| <= 2
    ensures fs.disk.readFaults >= old(fs.disk.readFaults) && fs.disk.writeFaults >= old(fs.disk.writeFaults)
    ensures rc == 0 ==> pc in cat.dirs
    ensures MkdirEnds(fs.geo, v, cat, fs.disk.trace, from, S, rc, cat', pc, name, nc)
    ensures rc == 0 ==> Marked(fs.View(), nc)
    ensures torn ==> rc != 0 && !fs.disk.NoFaultSince(old(fs.disk.readFaults), old(fs.disk.writeFaults))
    ensures rc != 0 && !torn ==> Reached(v, cat, fs.View(), cat', S)
    ensures rc != 0 && fs.disk.NoFaultSince(old(fs.disk.readFaults), old(fs.disk.writeFaults)) ==> cat' == cat
    ensures fs.disk.NoFaultSince(old(fs.disk.readFaults), old(fs.disk.writeFaults)) ==>
      rc == ChainCode(pc, Full(Slots(DirSecs(v, cat, pc))), HasFree(old(fs.View())))
  {
    hide ViewOf, Laid, WellFormedVolume, Keeps, Survives, AllSurvive, Touched, HoldsNewDir, Landed, Guarded,
         SparedIn, SameSpared, MkdirEnds, Entries, Key, Reached, Slots, Full, FirstFree, IsChain, Secs, SlotPlace,
         HasFree;
    ghost var v1 := fs.View();
    cat', S, torn := cat, S0, false;
    DirsAreChains(v1, cat);
    ghost var cs := if pc in cat.dirs then cat.chains[pc] else [];
    assert pc in cat.dirs ==> DirSecs(v1, cat, pc) == DirSecs(v, cat, pc) == Secs(v1.data, cs) by {
      assert pc in cat.dirs ==> IsDirOf(cat, pc);
    }
    ViewIsShaped(fs.geo, fs.disk.sectors);
    var last, lba, ei;
    ghost var m, s;
    rc, last, lba, ei, m, s := FindFreeChain(fs, pc, cs);
    if rc == 0 {
      FoundPlace(fs.geo, v1, cat, pc, lba, ei, m, s);
      SameSecsSpared(v, v1, cat, pc, name);
      rc, cat' := Finish(fs, lba, ei, name, nc, v, cat, cat, S, from, pc, Place(m, fs.geo.spc, s), m, s);
      return;
    }
    if rc < 0 {
      EndsEarly(fs.geo, v, cat, fs.disk.trace, from, S, rc, cat', pc, name, nc);
      return;
    }
    rc, torn, cat', S := MakeInGrown(fs, pc, last, name, nc, v, cat, S0, from);
  }

  lemma DirsAreChains(v: Volume, cat: Catalog)
    requires WellFormedVolume(v, cat)
    ensures 0 !in cat.dirs && 1 !in cat.dirs
    ensures forall d <- cat.dirs ::
      d in cat.chains && IsChain(v, cat.chains[d]) && |cat.chains[d]| > 0 && cat.chains[d][0] == d >= 2
  {
    forall d <- cat.dirs
      ensures d >= 2
    {
      DirLast(v, cat, d);
    }
  }

  lemma FoundPlace(g: Geom, v: Volume, cat: Catalog, pc: u16, lba: nat, ei: nat, m: nat, s: nat)
    requires pc >= 2 && pc in cat.dirs && pc in cat.chains && SlotFound(g, v, cat.chains[pc], m, s, lba, ei)
    ensures SlotPlace(g, v, cat, pc, lba, Place(m, g.spc, s), ei, m, s) && !Full(Slots(Secs(v.data, cat.chains[pc])))
  {
    hide Slots, Secs, Place, DataSec, IsFree;
  }

  method MakeInGrown(fs: Fat16, pc: u16, last: u16, name: Name11, nc: u16, ghost v: Volume, ghost cat: Catalog,
                     ghost S0: set<u16>, ghost from: nat)
    returns (rc: int, torn: bool, ghost cat': Catalog, ghost S: set<u16>)
    requires fs.Mounted() && LoneCluster(fs.View(), cat, nc) && HoldsNewDir(fs.View(), pc, nc) && |S0| <= 1
    requires WellFormedVolume(v, cat) && name[0] != 0 && Reached(v, cat, fs.View(), cat, S0)
    requires SameDirSecs(v, fs.View(), cat)
    requires pc in cat.dirs && pc in cat.chains && cat.chains[pc] != [] && last == LastOf(cat, pc)
    requires Full(Slots(DirSecs(fs.View(), cat, pc)))
    requires AllSurvive(fs.geo, v, cat, fs.disk.trace, from, S0) && Survives(fs.geo, v, cat, fs.disk.sectors, S0)
    modifies fs.disk
    ensures fs.Mounted() && rc <= 0 && old(fs.disk.trace) <= fs.disk.trace && |S| <= 2
    ensures fs.disk.readFaults >= old(fs.disk.readFaults) && fs.disk.writeFaults >= old(fs.disk.writeFaults)
    ensures MkdirEnds(fs.geo, v, cat, fs.disk.trace, from, S, rc, cat', pc, name, nc)
    ensures rc == 0 ==> Marked(fs.View(), nc)
    ensures torn ==> rc != 0 && !fs.disk.NoFaultSince(old(fs.disk.readFaults), old(fs.disk.writeFaults))
    ensures rc != 0 && !torn ==> Reached(v, cat, fs.View(), cat', S)
    ensures rc != 0 && fs.disk.NoFaultSince(old(fs.disk.readFaults), old(fs.disk.writeFaults)) ==> cat' == cat
    ensures fs.disk.NoFaultSince(old(fs.disk.readFaults), old(fs.disk.writeFaults)) ==>
      rc == if HasFree(old(fs.View())) then 0 else -3
  {
    hide ViewOf, Laid, WellFormedVolume, Keeps, Survives, AllSurvive, Touched, HoldsNewDir, Landed, Guarded,
         SparedIn, SameSpared, MkdirEnds, Entries, Key, Reached, Slots, Full, FirstFree, IsChain, Secs, SlotPlace,
         HasFree, LoneCluster;
    ghost var v1, before := fs.View(), fs.disk.trace;
    var ext;
    ghost var cat1, T;
    rc, torn, ext, cat1, T := ExtendDir(fs, pc, last, nc, cat);
    S := S0 + T;
    SmallUnion(S0, T);
    cat' := cat;
    assert fs.disk.trace[..|before|] == before;
    AllSurviveFrom(fs.geo, v, cat, v1, cat, fs.disk.trace, from, |before|, S0, T);
    ReachedSurvives(fs.geo, v, cat, v1, cat, fs.disk.sectors, S0, T);
    if rc != 0 {
      if !torn {
        ReachedTrans(v, cat, v1, cat, fs.View(), cat, S0, T);
      }
      EndsEarly(fs.geo, v, cat, fs.disk.trace, from, S, rc, cat', pc, name, nc);
      return;
    }
    ReachedTrans(v, cat, v1, cat, fs.View(), cat1, S0, T);
    GrownSpared(v, v1, cat, pc, fs.View(), cat1, name);
    ghost var j, m := Place(|cat.chains[pc]|, fs.geo.spc, 0), |cat.chains[pc]|;
    rc, cat' := Finish(fs, DataSec(fs.geo, ext, 0), 0, name, nc, v, cat, cat1, S, from, pc, j, m, 0);
  }

  lemma GrownSpared(v: Volume, v1: Volume, cat: Catalog, pc: u16, w: Volume, cat1: Catalog, name: Name11)
    requires SameDirSecs(v, v1, cat) && IsDirOf(cat, pc) && Full(Slots(DirSecs(v1, cat, pc)))
    requires SparedIn(w, cat1, pc, name)
    ensures SameSpared(v, cat, w, cat1, pc, name)
  {
    hide Slots, Full, Spared;
    FullIsSpared(Slots(DirSecs(v, cat, pc)), name);
  }

  lemma SmallUnion(a: set<u16>, b: set<u16>)
    requires |a| <= 1 && |b| <= 1
    ensures |a + b| <= 2
  {
    assert |a + b| == |a| + |b| - |a * b|;
  }

  // ----- mkdir -----

  // The parent as the second lookup reports it.
  ghost predicate ParentIs(cat: Catalog, parent: seq<byte>, spot: Spot, isRoot: bool, pc: u16) {
    if parent == [] then isRoot && pc == 0
    else !isRoot && spot.Found? && HasDir(spot.e.attr) && pc == spot.e.clus
  }

  ghost predicate ParentResolves(parent: seq<byte>, spot: Spot) {
    parent == [] || (spot.Found? && HasDir(spot.e.attr))
  }

  function ParentClus(parent: seq<byte>, spot: Spot): u16 {
    if parent != [] && spot.Found? then spot.e.clus else 0
  }

  // The directory the driver writes to: that of the parent text as its buffer holds it.
  function ParentDir(v: Volume, cat: Catalog, path: seq<byte>): u16 {
    ParentClus(ParentOf(path), Resolve(v, cat, ParentOf(path)))
  }

  /** No earlier path is lost to a mkdir: the leaf's name is spared in the parent it resolves. */
  ghost predicate SparesAll(v: Volume, cat: Catalog, path: seq<byte>) {
    SparedIn(v, cat, ParentDir(v, cat, path), LeafName(LeafOf(path)))
  }

  /** Exactly when a mkdir without I/O faults succeeds. */
  ghost predicate CanMkdir(v: Volume, cat: Catalog, path: seq<byte>) {
    var spot := Resolve(v, cat, ParentOf(path));
    && Resolve(v, cat, path).Fail? && LeafOf(path) != []
    && ParentResolves(ParentOf(path), spot)
    && CanMake(v, cat, ParentOf(path) == [], ParentClus(ParentOf(path), spot), LeafOf(path))
  }

  /** What a mkdir without I/O faults answers: the first of these that holds decides. */
  ghost function MkdirCode(v: Volume, cat: Catalog, path: seq<byte>): int {
    var spot := Resolve(v, cat, ParentOf(path));
    if !Resolve(v, cat, path).Fail? then -2
    else if LeafOf(path) == [] then -3
    else if ParentOf(path) != [] && spot.Fail? then -4
    else if ParentOf(path) != [] && spot.Found? && !HasDir(spot.e.attr) then -5
    else MakeCode(v, cat, ParentOf(path) == [], ParentClus(ParentOf(path), spot), LeafOf(path))
  }

  /** The parent text survives the 127-character buffer. */
  predicate ParentFits(path: seq<byte>) {
    |FullParent(path)| <= 127
  }

  lemma ResolveSnoc(v: Volume, cat: Catalog, path: seq<byte>)
    requires 0 !in path && ParentFits(path) && |FullLeaf(path)| <= 63 && LeafOf(path) != []
    ensures Resolve(v, cat, path) == Look(v, cat, Resolve(v, cat, ParentOf(path)), LeafOf(path))
    ensures ParentOf(path) == [] ==> Resolve(v, cat, ParentOf(path)) == AtRoot
  {
    hide Look, Components;
    SplitComponents(path);
    WalkSnoc(v, cat, Components(ParentOf(path)), LeafOf(path));
    EndOfPath(v, cat, [], 0);
  }

  lemma LeafIsComponent(path: seq<byte>)
    requires 0 !in path
    ensures Component(LeafOf(path)) && (|FullLeaf(path)| <= 63 <==> LeafOf(path) == FullLeaf(path))
    ensures |FullLeaf(path)| > 63 ==> |LeafOf(path)| == 63
  {
    var p := path[Lead(path)..];
    assert forall k :: 0 <= k < |p| ==> p[k] == path[Lead(path) + k];
    TailIsComponent(p);
    var leaf := FullLeaf(path);
    assert forall k :: 0 <= k < |Cap(leaf, 63)| ==> Cap(leaf, 63)[k] == leaf[k];
  }

  lemma TailIsComponent(p: seq<byte>)
    requires 0 !in p
    ensures Component(p[AfterLastSep(p)..])
  {
    var r := AfterLastSep(p);
    assert forall k :: 0 <= k < |p| - r ==> p[r..][k] == p[r + k];
  }

  /** A path that resolves to nothing leaves its leaf unused in the directory of its parent. */
  lemma UnresolvedIsFresh(v: Volume, cat: Catalog, path: seq<byte>, isRoot: bool, pc: u16)
    requires WellFormedVolume(v, cat) && 0 !in path && ParentFits(path) && LeafOf(path) != []
    requires !Resolve(v, cat, path).Found?
    requires ParentIs(cat, ParentOf(path), Resolve(v, cat, ParentOf(path)), isRoot, pc)
    ensures Fresh(v, cat, isRoot, pc, LeafOf(path))
  {
    hide Encode, Key, Entries, WellFormedVolume, Component, Resolve;
    LeafIsComponent(path);
    if Encode(LeafOf(path)).Ok? {
      EncodableIsShort(LeafOf(path));
      ResolveSnoc(v, cat, path);
    }
  }

  lemma ResolvedParent(v: Volume, cat: Catalog, parent: seq<byte>)
    requires WellFormedVolume(v, cat)
    ensures Readable(v, cat) && Travels(v, cat, Components(parent))
    ensures var spot := Resolve(v, cat, parent);
      spot.Found? && HasDir(spot.e.attr) ==> spot.e.clus < 2 || spot.e.clus in cat.dirs
  {
    hide Components, Encode, Key;
    ReadableVolume(v, cat);
    WellFormedTravels(v, cat, Components(parent));
    if Walk(v, cat, Components(parent)).Found? {
      WalkEntryOk(v, cat, Components(parent));
    }
  }

  lemma WalkEntryOk(v: Volume, cat: Catalog, comps: seq<seq<byte>>)
    requires WellFormedVolume(v, cat) && Walk(v, cat, comps).Found?
    ensures EntryOk(v, cat, Walk(v, cat, comps).e)
  {
    hide Encode, Key;
    var before, comp := Walk(v, cat, comps[..|comps| - 1]), comps[|comps| - 1];
    var d := if before.AtRoot? then 0 else before.e.clus;
    LookupMember(Entries(v, cat, d), Key(Encode(comp).name));
    assert IsDirOf(cat, d) && DirOk(v, cat, d);
  }

  lemma ParentStarts(path: seq<byte>)
    ensures ParentOf(path) != [] ==> !IsSep(ParentOf(path)[0]) && ParentOf(path)[0] in path
  {
    var p := path[Lead(path)..];
    assert p != [] ==> p[0] == path[Lead(path)];
  }

  lemma ParentIsNoRoot(v: Volume, cat: Catalog, path: seq<byte>)
    requires 0 !in path
    ensures Resolve(v, cat, ParentOf(path)).AtRoot? <==> ParentOf(path) == []
  {
    hide ParentOf, Encode, Key, Entries;
    ParentStarts(path);
    var comps := Components(ParentOf(path));
    if ParentOf(path) != [] {
      assert comps != [] && Walk(v, cat, comps) == Look(v, cat, Walk(v, cat, comps[..|comps| - 1]), comps[|comps| - 1]);
    }
  }

  lemma DirOfParent(v: Volume, cat: Catalog, path: seq<byte>, isRoot: bool, pc: u16)
    requires 0 !in path && ParentIs(cat, ParentOf(path), Resolve(v, cat, ParentOf(path)), isRoot, pc)
    ensures isRoot || pc in cat.dirs ==>
      DirAt(cat, Resolve(v, cat, ParentOf(path))) == Some(if isRoot then 0 else pc)
    ensures ParentDir(v, cat, path) == if isRoot then 0 else pc
    ensures CanMkdir(v, cat, path) <==>
      Resolve(v, cat, path).Fail? && LeafOf(path) != [] && CanMake(v, cat, isRoot, pc, LeafOf(path))
    ensures Resolve(v, cat, path).Fail? && LeafOf(path) != [] ==>
      MkdirCode(v, cat, path) == MakeCode(v, cat, isRoot, pc, LeafOf(path))
  {
    hide ParentOf, LeafOf, CanMake, MakeCode, Resolve;
    ParentIsNoRoot(v, cat, path);
  }

  /** With a parent text that fits, a path that does not exist yet spares every other. */
  lemma FitsSparesAll(v: Volume, cat: Catalog, path: seq<byte>)
    requires WellFormedVolume(v, cat) && 0 !in path && ParentFits(path) && LeafOf(path) != []
    requires !Resolve(v, cat, path).Found? && Encode(LeafOf(path)).Ok?
    requires DirAt(cat, Resolve(v, cat, ParentOf(path))) == Some(ParentDir(v, cat, path))
    ensures SparesAll(v, cat, path)
  {
    hide WellFormedVolume, Resolve, Encode, ParentOf, LeafOf, Key, LiveEntries, Slots, ParentFits, FirstFree;
    var parent, d := ParentOf(path), ParentDir(v, cat, path);
    ParentIsNoRoot(v, cat, path);
    UnresolvedIsFresh(v, cat, path, parent == [], d);
  }

  /**
   The parent text is used as it stands exactly when it has at most 127 characters, and then a
   mkdir that can succeed spares every earlier path.
   */
  lemma ParentFitsExactly(v: Volume, cat: Catalog, path: seq<byte>)
    requires WellFormedVolume(v, cat) && 0 !in path
    ensures ParentOf(path) == FullParent(path) <==> ParentFits(path)
    ensures CanMkdir(v, cat, path) && ParentFits(path) ==> SparesAll(v, cat, path)
  {
    hide WellFormedVolume, Resolve, Encode, ParentFits, LeafOf, FullParent, HasFree, HasTwoFree, Full, SparesAll, Slots;
    CutOrNot(path);
    if CanMkdir(v, cat, path) && ParentFits(path) {
      ParentIsNoRoot(v, cat, path);
      FitsSparesAll(v, cat, path);
    }
  }

  lemma CutOrNot(path: seq<byte>)
    ensures ParentOf(path) == FullParent(path) <==> ParentFits(path)
  {
  }

  // The path does not exist, its leaf has text, and its parent is a directory.
  ghost predicate ParentStands(v: Volume, cat: Catalog, path: seq<byte>) {
    Resolve(v, cat, path).Fail? && LeafOf(path) != [] && ParentResolves(ParentOf(path), Resolve(v, cat, ParentOf(path)))
  }

  // No cluster is free for the directory, or no second one for a parent with every slot in use.
  ghost predicate NoClusterLeft(v: Volume, cat: Catalog, path: seq<byte>) {
    var pc := ParentDir(v, cat, path);
    && ParentStands(v, cat, path)
    && (!HasFree(v) || (Encode(LeafOf(path)).Ok? && ParentOf(path) != [] && pc >= 2
                          && Full(Slots(DirSecs(v, cat, pc))) && !HasTwoFree(v)))
  }

  lemma MkdirCodeZero(v: Volume, cat: Catalog, path: seq<byte>)
    requires WellFormedVolume(v, cat) && 0 !in path
    ensures MkdirCode(v, cat, path) == 0 <==> CanMkdir(v, cat, path)
    ensures ParentStands(v, cat, path) && ParentOf(path) != [] && ParentDir(v, cat, path) < 2 ==>
      ParentDir(v, cat, path) !in cat.dirs
  {
    hide WellFormedVolume, Resolve, ParentOf, LeafOf, HasFree, HasTwoFree, Full, Slots, DirSecs, Encode, HasDir,
         CanMake, MakeCode;
    var spot := Resolve(v, cat, ParentOf(path));
    ParentIsNoRoot(v, cat, path);
    if ParentStands(v, cat, path) {
      ResolvedParent(v, cat, ParentOf(path));
      MakeCodeZero(v, cat, ParentOf(path) == [], ParentClus(ParentOf(path), spot), LeafOf(path));
    }
  }

  /** Each answer of a mkdir without faults, by the volumes and texts that get it. */
  lemma MkdirCodes(v: Volume, cat: Catalog, path: seq<byte>)
    requires WellFormedVolume(v, cat) && 0 !in path
    ensures MkdirCode(v, cat, path) in {0, -2, -3, -4, -5, -6, -10, -11}
    ensures MkdirCode(v, cat, path) == 0 <==> CanMkdir(v, cat, path)
    ensures MkdirCode(v, cat, path) == -2 <==> !Resolve(v, cat, path).Fail?
    ensures MkdirCode(v, cat, path) == -3 <==>
      Resolve(v, cat, path).Fail? && (LeafOf(path) == [] || NoClusterLeft(v, cat, path))
    ensures MkdirCode(v, cat, path) == -4 <==>
      Resolve(v, cat, path).Fail? && LeafOf(path) != [] && ParentOf(path) != []
      && Resolve(v, cat, ParentOf(path)).Fail?
    ensures MkdirCode(v, cat, path) == -5 <==>
      Resolve(v, cat, path).Fail? && LeafOf(path) != [] && Resolve(v, cat, ParentOf(path)).Found?
      && !HasDir(Resolve(v, cat, ParentOf(path)).e.attr)
    ensures MkdirCode(v, cat, path) == -6 <==>
      ParentStands(v, cat, path) && HasFree(v) && Encode(LeafOf(path)).Bad?
    ensures MkdirCode(v, cat, path) == -10 <==>
      ParentStands(v, cat, path) && HasFree(v) && Encode(LeafOf(path)).Ok? && ParentOf(path) == []
      && Full(Slots(v.root))
    ensures MkdirCode(v, cat, path) == -11 <==>
      ParentStands(v, cat, path) && HasFree(v) && Encode(LeafOf(path)).Ok? && ParentOf(path) != []
      && ParentDir(v, cat, path) < 2
  {
    hide WellFormedVolume, Resolve, ParentOf, LeafOf, HasFree, HasTwoFree, Full, Slots, DirSecs, Encode, HasDir,
         CanMkdir;
    ParentIsNoRoot(v, cat, path);
    MkdirCodeZero(v, cat, path);
  }

  /**
   `fat16_mkdir_path83`, whatever the texts and whatever faults occur.
   Safety: every image the run passes through but the last still holds all earlier paths and
   files, with at most two free clusters taken; if the run fails, the last one does too.
   Success: result 0 means the whole invariant holds again with one directory more, and the
   last image holds all earlier paths exactly when `SparesAll` says so.
   Failure: a mkdir that fails leaves the tree and the invariant as they were, unless a fault
   stopped it between linking a cluster and zeroing it; at most two clusters are lost. The
   result `torn`, which the source does not report, tells these apart.
   Answers: without faults the code is that of `MkdirCode`, and 0 exactly when `CanMkdir` says so.
   */
  method Mkdir(fs: Fat16, path: seq<byte>, ghost cat: Catalog)
    returns (rc: int, torn: bool, ghost cat': Catalog, ghost nc: u16, ghost S: set<u16>)
    requires fs.Mounted() && WellFormedVolume(fs.View(), cat) && 0 !in path
    modifies fs.disk
    ensures fs.Mounted() && old(fs.disk.trace) <= fs.disk.trace && |S| <= 2
    ensures fs.disk.readFaults >= old(fs.disk.readFaults) && fs.disk.writeFaults >= old(fs.disk.writeFaults)
    ensures MkdirEnds(fs.geo, old(fs.View()), cat, fs.disk.trace, |old(fs.disk.trace)|, S, rc,
                      cat', ParentDir(old(fs.View()), cat, path), LeafName(LeafOf(path)), nc)
    ensures rc == 0 ==>
      && Encode(LeafOf(path)).Ok? && TookFree(old(fs.View()), fs.View(), nc)
      && DirAt(cat, Resolve(old(fs.View()), cat, ParentOf(path))) == Some(ParentDir(old(fs.View()), cat, path))
    ensures fs.disk.NoFaultSince(old(fs.disk.readFaults), old(fs.disk.writeFaults)) ==>
      rc == MkdirCode(old(fs.View()), cat, path) && (rc == 0 <==> CanMkdir(old(fs.View()), cat, path))
    ensures torn ==> rc != 0 && !fs.disk.NoFaultSince(old(fs.disk.readFaults), old(fs.disk.writeFaults))
    ensures rc != 0 && !torn ==> Reached(old(fs.View()), cat, fs.View(), cat', S)
    ensures rc != 0 && fs.disk.NoFaultSince(old(fs.disk.readFaults), old(fs.disk.writeFaults)) ==> cat' == cat
  {
    hide ViewOf, Laid, WellFormedVolume, Keeps, Survives, AllSurvive, Touched, Landed, Guarded, SparedIn, MkdirEnds,
         Entries, Key, Encode, Resolve, CanMake, ParentOf, LeafOf, Readable, Travels, ParentFits, Fresh, Reached;
    ghost var v, from := fs.View(), |fs.disk.trace|;
    ghost var d, name := ParentDir(v, cat, path), LeafName(LeafOf(path));
    ReachedItself(v, cat);
    cat', nc, S, torn := cat, 0, {}, false;
    MkdirCodeZero(v, cat, path);
    KeepsItself(v, cat);
    SurvivesAt(fs.geo, v, cat, fs.disk.sectors, cat, {});
    NothingNew(fs.geo, v, cat, fs.disk.trace);
    ResolvedParent(v, cat, path);
    ResolvedParent(v, cat, ParentOf(path));
    LeafIsComponent(path);
    forall code | code != 0
      ensures MkdirEnds(fs.geo, v, cat, fs.disk.trace, from, S, code, cat', d, name, nc)
    {
      EndsEarly(fs.geo, v, cat, fs.disk.trace, from, S, code, cat', d, name, nc);
    }
    var item;
    rc, item := StatPath(fs, path, cat);
    if rc == 0 {
      return -2, false, cat', nc, S;
    }
    var parent, leaf;
    rc, parent, leaf := SplitParentLeaf(path);
    if rc != 0 {
      return -3, false, cat', nc, S;
    }
    var isRoot, pc := parent == [], 0;
    ghost var spot := Resolve(v, cat, parent);
    if !isRoot {
      rc, item := StatPath(fs, parent, cat);
      if rc != 0 {
        return -4, false, cat', nc, S;
      }
      if !HasDir(item.attr) {
        return -5, false, cat', nc, S;
      }
      ParentIsNoRoot(v, cat, path);
      pc := item.clus;
    }
    assert ParentIs(cat, parent, spot, isRoot, pc);
    DirOfParent(v, cat, path, isRoot, pc);
    rc, torn, cat', nc, S := MakeIn(fs, isRoot, pc, leaf, cat);
  }

  lemma NothingNew(g: Geom, v: Volume, cat: Catalog, imgs: seq<Image>)
    ensures AllSurvive(g, v, cat, imgs, |imgs|, {})
  {
  }
}
