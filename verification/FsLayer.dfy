/** The `fs_*` calls that compose path text, lookup, listing and file reading. */
module FsLayer {
  import opened Bytes
  import opened Names83
  import opened FatVolume
  import opened FatTree
  import opened FatMount
  import opened DirIter
  import opened FatStat
  import opened FatRead
  import opened Path83

  const PATH_CAP := 256

  // ----- files by their catalogued chains -----

  /** The contents of a file. */
  function FileBytes(v: Volume, cat: Catalog, e: Entry): seq<byte> {
    if e.clus in cat.chains && e.size <= |Flat(Secs(v.data, cat.chains[e.clus]))|
    then Flat(Secs(v.data, cat.chains[e.clus]))[..e.size]
    else []
  }

  lemma {:induction false} RunOfChain(v: Volume, cs: seq<u16>, n: nat)
    requires Shaped(v) && IsChain(v, cs) && n <= |cs|
    ensures Run(v, cs[0], n) == Some(cs[..n])
    decreases n
  {
    if n > 1 {
      assert IsChain(v, cs[1..]);
      RunOfChain(v, cs[1..], n - 1);
      assert [cs[0]] + cs[1..][..n - 1] == cs[..n];
    } else if n == 1 {
      assert [cs[0]] + [] == cs[..1];
    }
  }

  /** Inside its size, a file's range is there and holds the file's bytes. */
  lemma FileRange(v: Volume, cat: Catalog, e: Entry, off: nat, size: nat)
    requires WellFormedVolume(v, cat) && EntryOk(v, cat, e) && !HasDir(e.attr) && off + size <= e.size && size > 0
    ensures |FileBytes(v, cat, e)| == e.size && Clus(v, e.clus)
    ensures Range(v, e.clus, off, size) == Some(FileBytes(v, cat, e)[off..off + size])
  {
    hide DirOk, FatOk, Flat, Secs, Run;
    var cs := cat.chains[e.clus];
    assert IsChain(v, cs) && cs[0] == e.clus;
    RunOfChain(v, cs, |cs|);
    assert cs[..|cs|] == cs;
    RunLength(v, cs);
    CbPositive(v);
    NeededWithin(ClusterBytes(v), off, size, |cs|);
    var n := Needed(ClusterBytes(v), off, size);
    RunPrefix(v, e.clus, n, |cs|);
    RangeFits(v, Run(v, e.clus, n).value, off, size);
    FlatLength(Secs(v.data, cs));
    RunBytes(v, e.clus, n, |cs|, off, size);
    RangeIs(v, e.clus, off, size);
    var all := Flat(Secs(v.data, cs));
    assert all[..e.size][off..off + size] == all[off..off + size];
  }

  lemma RangeIs(v: Volume, c: u16, off: nat, size: nat)
    requires Shaped(v) && size > 0 && ClusterBytes(v) > 0
    requires Run(v, c, Needed(ClusterBytes(v), off, size)).Some?
    ensures off + size <= |Flat(Secs(v.data, Run(v, c, Needed(ClusterBytes(v), off, size)).value))|
    ensures Range(v, c, off, size)
         == Some(Flat(Secs(v.data, Run(v, c, Needed(ClusterBytes(v), off, size)).value))[off..off + size])
  {
    RangeFits(v, Run(v, c, Needed(ClusterBytes(v), off, size)).value, off, size);
  }

  lemma NeededWithin(cb: nat, off: nat, size: nat, n: nat)
    requires cb > 0 && size > 0 && off + size <= n * cb
    ensures Needed(cb, off, size) <= n
  {
    var x := off + size - 1;
    DivStep(x, cb);
    MulOrder(n + 1, x / cb + 1, cb);
    MulOrder(n, x / cb, cb);
  }

  // ----- the calls -----

  method Normalised(path: seq<byte>) returns (p83: seq<byte>)
    ensures p83 == Norm(path, PATH_CAP) && |p83| <= 255
  {
    var buf := new byte[PATH_CAP];
    NormPath83(path, buf);
    p83 := buf[..|Norm(path, PATH_CAP)|];
  }

  /** Looking a path up after normalising it. */
  method Find(fs: Fat16, path: seq<byte>, ghost cat: Catalog) returns (rc: int, item: Item, ghost spot: Spot)
    requires fs.Mounted() && WellFormedVolume(fs.View(), cat)
    modifies fs.disk`readFaults
    ensures fs.disk.readFaults >= old(fs.disk.readFaults)
    ensures spot == Resolve(fs.View(), cat, Norm(path, PATH_CAP))
    ensures |Canonical(path)| <= 255 ==> spot == Resolve(fs.View(), cat, path)
    ensures rc == 0 ==> !spot.Fail? && item == SpotItem(spot)
    ensures rc != 0 ==> spot == Fail(rc) || (rc < 0 && fs.disk.readFaults > old(fs.disk.readFaults))
  {
    hide WellFormedVolume, Resolve, Canonical, Norm, Readable, Travels, ViewOf, Laid;
    var p83 := Normalised(path);
    ghost var v := fs.View();
    ReadableVolume(v, cat);
    WellFormedTravels(v, cat, Components(p83));
    if |Canonical(path)| < PATH_CAP {
      ResolveNorm(v, cat, path, PATH_CAP);
    }
    spot := Resolve(v, cat, p83);
    rc, item := StatPath(fs, p83, cat);
  }

  // Some directory shows the entry in one of its slots.
  ghost predicate OnVolume(v: Volume, cat: Catalog, e: Entry) {
    exists d: u16, i: nat :: IsDirOf(cat, d) && ShownAt(Slots(DirSecs(v, cat, d)), i, e)
  }

  // What a lookup found stands in a slot.
  lemma FoundOnVolume(v: Volume, cat: Catalog, path: seq<byte>)
    requires Resolve(v, cat, path).Found?
    ensures OnVolume(v, cat, Resolve(v, cat, path).e)
  {
    hide Encode, Key, Components, ShownAt, Slots;
    var comps, e := Components(path), Resolve(v, cat, path).e;
    var before, comp := Walk(v, cat, comps[..|comps| - 1]), comps[|comps| - 1];
    var d := if before.AtRoot? then 0 else before.e.clus;
    LookupMember(Entries(v, cat, d), Key(Encode(comp).name));
    ListedExactly(Slots(DirSecs(v, cat, d)), e);
  }

  datatype Kind = NoFile | File | Dir

  /** `fs_stat` */
  method Stat(fs: Fat16, path: seq<byte>, ghost cat: Catalog) returns (rc: int, kind: Kind, size: u32, ghost spot: Spot)
    requires fs.Mounted() && WellFormedVolume(fs.View(), cat)
    modifies fs.disk`readFaults
    ensures spot == Resolve(fs.View(), cat, Norm(path, PATH_CAP))
    ensures |Canonical(path)| <= 255 ==> spot == Resolve(fs.View(), cat, path)
    ensures rc == 0 ==>
      !spot.Fail? && size == SpotItem(spot).size && kind == if HasDir(SpotItem(spot).attr) then Dir else File
    ensures rc == 0 && spot.Found? ==> size == spot.e.size && OnVolume(fs.View(), cat, spot.e)
    ensures rc != 0 ==> kind == NoFile && (spot == Fail(rc) || fs.disk.readFaults > old(fs.disk.readFaults))
  {
    hide WellFormedVolume, Resolve, Canonical, Norm, ViewOf, Laid;
    var item;
    rc, item, spot := Find(fs, path, cat);
    if rc != 0 {
      return rc, NoFile, 0, spot;
    }
    if spot.Found? {
      FoundOnVolume(fs.View(), cat, Norm(path, PATH_CAP));
    }
    return 0, if HasDir(item.attr) then Dir else File, item.size, spot;
  }

  // The entry a lookup found is sound.
  lemma FoundOk(v: Volume, cat: Catalog, path: seq<byte>)
    requires WellFormedVolume(v, cat) && Resolve(v, cat, path).Found?
    ensures EntryOk(v, cat, Resolve(v, cat, path).e)
  {
    hide Encode, Key, Components;
    var comps := Components(path);
    var before, comp := Walk(v, cat, comps[..|comps| - 1]), comps[|comps| - 1];
    var d := if before.AtRoot? then 0 else before.e.clus;
    LookupMember(Entries(v, cat, d), Key(Encode(comp).name));
    assert IsDirOf(cat, d) && DirOk(v, cat, d);
  }

  function Least(a: nat, b: nat): nat {
    if a < b then a else b
  }

  /**
   `fs_read_file_at`, over the file read with its step to the next cluster: the bytes asked
   for, as far as the file goes.
   */
  method ReadFileAt(fs: Fat16, path: seq<byte>, offset: u32, buf: array<byte>, len: u32, ghost cat: Catalog)
    returns (rc: int, got: nat, ghost spot: Spot)
    requires fs.Mounted() && WellFormedVolume(fs.View(), cat) && len <= buf.Length
    modifies buf, fs.disk`readFaults
    ensures spot == Resolve(fs.View(), cat, Norm(path, PATH_CAP))
    ensures len == 0 ==> rc == 0 && got == 0
    ensures rc == 0 && len > 0 ==>
      spot.Found? && !HasDir(spot.e.attr) && offset < spot.e.size
      && got == Least(len, spot.e.size - offset) && |FileBytes(fs.View(), cat, spot.e)| == spot.e.size
      && buf[..got] == FileBytes(fs.View(), cat, spot.e)[offset..offset + got]
    ensures spot.Found? ==> OnVolume(fs.View(), cat, spot.e)
    ensures rc != 0 ==> got == 0
    ensures rc != 0 && fs.disk.readFaults == old(fs.disk.readFaults) ==>
      spot == Fail(rc)
      || (rc == -2 && (spot.AtRoot? || (spot.Found? && HasDir(spot.e.attr))))
      || (rc == -4 && spot.Found? && spot.e.size <= offset)
  {
    hide WellFormedVolume, Resolve, Canonical, Norm, ViewOf, Laid, Range, FileBytes, EntryOk;
    got := 0;
    ghost var v := fs.View();
    spot := Resolve(v, cat, Norm(path, PATH_CAP));
    if spot.Found? {
      FoundOnVolume(v, cat, Norm(path, PATH_CAP));
    }
    if len == 0 {
      return 0, 0, spot;
    }
    var item;
    rc, item, spot := Find(fs, path, cat);
    if rc != 0 {
      return;
    }
    if HasDir(item.attr) {
      return -2, 0, spot;
    }
    if offset >= item.size {
      return -4, 0, spot;
    }
    var remain := item.size - offset;
    var take := if len < remain then len else remain;
    FoundOk(v, cat, Norm(path, PATH_CAP));
    FileRange(v, cat, spot.e, offset, take);
    ViewIsShaped(fs.geo, fs.disk.sectors);
    rc := ReadFile(fs, item.clus, offset, take, buf);
    if rc == 0 {
      got := take;
    }
  }

  // ----- listing -----

  /** What a listing hands to its caller. */
  datatype Shown = Shown(name: seq<byte>, attr: byte, size: u32)

  function NameText(e: Entry): seq<byte> {
    CutNul(Decode(e.name))
  }

  // Everything but "." and "..".
  function Visible(es: seq<Entry>): seq<Shown> {
    if es == [] then []
    else
      var text := NameText(es[0]);
      (if text == DOT_KEY || text == DOTDOT_KEY then [] else [Shown(text, es[0].attr, es[0].size)]) + Visible(es[1..])
  }

  // The C string in a buffer.
  method CText(buf: array<byte>, ghost text: seq<byte>) returns (s: seq<byte>)
    requires HoldsText(buf[..], text)
    ensures s == CutNul(text)
  {
    var n := 0;
    while n < buf.Length && buf[n] != 0
      invariant n <= |text| < buf.Length && forall k :: 0 <= k < n ==> buf[k] != 0
      decreases buf.Length - n
    {
      TextByte(buf[..], text, n);
      n := n + 1;
    }
    TextByte(buf[..], text, n);
    assert forall k :: 0 <= k < n ==> text[k] == buf[..][k];
    CutNulIs(text, n);
    s := buf[..n];
    assert s == text[..n];
  }

  lemma VisibleStep(e: Entry, es: seq<Entry>)
    ensures Visible([e] + es) ==
      (if NameText(e) == DOT_KEY || NameText(e) == DOTDOT_KEY then [] else [Shown(NameText(e), e.attr, e.size)])
        + Visible(es)
  {
    assert ([e] + es)[1..] == es;
  }

  // One step of the listing loop: the next entry, or nothing if it is a dot entry.
  method ListNext(it: FatDirIter, name83: array<byte>) returns (rc: int, one: seq<Shown>)
    requires it.Valid() && !it.done && name83.Length == 13
    modifies it, it.fs.disk`readFaults, name83
    ensures it.fs.disk.readFaults >= old(it.fs.disk.readFaults)
    ensures |one| <= 1
    ensures rc == 0 ==>
      it.Valid() && !it.done && |LiveEntries(it.Rest())| < |LiveEntries(old(it.Rest()))|
      && Visible(LiveEntries(old(it.Rest()))) == one + Visible(LiveEntries(it.Rest()))
    ensures rc > 0 ==> Visible(LiveEntries(old(it.Rest()))) == []
    ensures rc < 0 ==> it.fs.disk.readFaults > old(it.fs.disk.readFaults)
  {
    hide LiveEntries, Slots, ViewOf, Laid, Decode, HoldsText;
    var item;
    ghost var e;
    one := [];
    rc, item, e := it.GetNext(name83);
    if rc != 0 {
      return;
    }
    VisibleStep(e, LiveEntries(it.Rest()));
    var text := CText(name83, Decode(e.name));
    if text != DOT_KEY && text != DOTDOT_KEY {
      one := [Shown(text, item.attr, item.size)];
    }
  }

  /**
   What a callback takes, which may depend on what it took before: `shown` is the longest
   beginning of `all` with no entry refused.
   */
  ghost predicate TakenFrom(all: seq<Shown>, take: (seq<Shown>, Shown) -> bool, shown: seq<Shown>) {
    && shown <= all
    && (forall i :: 0 <= i < |shown| ==> take(shown[..i], shown[i]))
    && (|shown| < |all| ==> !take(shown, all[|shown|]))
  }

  /** A callback that refuses nothing is shown everything; one with room for `max`, the first `max`. */
  lemma TakenAll(all: seq<Shown>, take: (seq<Shown>, Shown) -> bool, shown: seq<Shown>, max: nat)
    requires TakenFrom(all, take, shown)
    ensures (forall s, e :: take(s, e)) ==> shown == all
    ensures (forall s, e :: take(s, e) <==> |s| < max) ==> shown == if |all| <= max then all else all[..max]
  {
    if forall s, e :: take(s, e) <==> |s| < max {
      var k := if max < |shown| then max else 0;
      assert |shown[..k]| == k;
    }
  }

  // What was taken so far, as a beginning of all there is to take.
  ghost predicate TakenSoFar(all: seq<Shown>, take: (seq<Shown>, Shown) -> bool, shown: seq<Shown>, rest: seq<Shown>) {
    all == shown + rest && forall i :: 0 <= i < |shown| ==> take(shown[..i], shown[i])
  }

  lemma OneTaken(all: seq<Shown>, take: (seq<Shown>, Shown) -> bool, shown: seq<Shown>, one: seq<Shown>,
                 rest: seq<Shown>)
    requires TakenSoFar(all, take, shown, one + rest) && |one| <= 1
    ensures one == [] || take(shown, one[0]) ==> TakenSoFar(all, take, shown + one, rest)
    ensures one != [] && !take(shown, one[0]) ==> TakenFrom(all, take, shown)
  {
    assert shown + (one + rest) == (shown + one) + rest;
    var more := shown + one;
    assert forall i :: 0 <= i < |shown| ==> more[..i] == shown[..i];
    assert one != [] ==> more[..|shown|] == shown && all[|shown|] == one[0];
  }

  lemma NoMoreToTake(all: seq<Shown>, take: (seq<Shown>, Shown) -> bool, shown: seq<Shown>)
    requires TakenSoFar(all, take, shown, [])
    ensures TakenFrom(all, take, shown)
  {
    assert shown + [] == shown;
  }

  lemma NothingTaken(all: seq<Shown>, take: (seq<Shown>, Shown) -> bool)
    ensures TakenSoFar(all, take, [], all)
  {
  }

  /** The loop of `fs_listdir`: each live entry once and in order, until the callback refuses one. */
  method ListRest(it: FatDirIter, take: (seq<Shown>, Shown) -> bool) returns (rc: int, shown: seq<Shown>)
    requires it.Valid() && !it.done
    modifies it, it.fs.disk`readFaults
    ensures rc <= 0
    ensures rc == 0 ==> TakenFrom(Visible(LiveEntries(old(it.Rest()))), take, shown)
    ensures rc != 0 ==> it.fs.disk.readFaults > old(it.fs.disk.readFaults)
  {
    hide LiveEntries, Slots, ViewOf, Laid, Visible, TakenSoFar, TakenFrom;
    var name83 := new byte[13];
    ghost var all := Visible(LiveEntries(it.Rest()));
    shown := [];
    NothingTaken(all, take);
    while true
      invariant it.Valid() && !it.done && it.fs.disk.readFaults >= old(it.fs.disk.readFaults)
      invariant TakenSoFar(all, take, shown, Visible(LiveEntries(it.Rest())))
      decreases |LiveEntries(it.Rest())|
    {
      var one;
      rc, one := ListNext(it, name83);
      if rc > 0 {
        NoMoreToTake(all, take, shown);
        return 0, shown;
      }
      if rc < 0 {
        return;
      }
      OneTaken(all, take, shown, one, Visible(LiveEntries(it.Rest())));
      if one != [] && !take(shown, one[0]) {
        return 0, shown;
      }
      shown := shown + one;
    }
  }

  predicate IsRootPath(p: seq<byte>) {
    At(p, 0) == 0 || (IsSep(p[0]) && At(p, 1) == 0)
  }

  /**
   `fs_listdir`, whatever the callback makes of an entry. The result is the number of entries
   it took once listing has begun, and the lookup's own code before; so a missing path
   gives 1, as a directory with one entry does.
   */
  method ListDir(fs: Fat16, path: seq<byte>, take: (seq<Shown>, Shown) -> bool, ghost cat: Catalog)
    returns (rc: int, begun: bool, shown: seq<Shown>, ghost spot: Spot)
    requires fs.Mounted() && WellFormedVolume(fs.View(), cat)
    modifies fs.disk`readFaults
    ensures spot == Resolve(fs.View(), cat, Norm(path, PATH_CAP))
    ensures begun ==> IsRootPath(path) || (spot.Found? && HasDir(spot.e.attr) && spot.e.clus in cat.dirs)
    ensures begun && rc >= 0 ==>
      rc == |shown|
      && TakenFrom(Visible(Entries(fs.View(), cat, if IsRootPath(path) then 0 else spot.e.clus)), take, shown)
    ensures begun && rc < 0 ==> fs.disk.readFaults > old(fs.disk.readFaults)
    ensures !begun && fs.disk.readFaults == old(fs.disk.readFaults) ==>
      !IsRootPath(path)
      && (spot == Fail(rc)
          || (rc == -2 && (spot.AtRoot? || (spot.Found? && (!HasDir(spot.e.attr) || spot.e.clus < 2)))))
  {
    hide WellFormedVolume, Resolve, Canonical, Norm, ViewOf, Laid, LiveEntries, Slots, Secs, EntryOk;
    ghost var v := fs.View();
    spot := Resolve(v, cat, Norm(path, PATH_CAP));
    var it;
    if IsRootPath(path) {
      it := BeginIter(fs, true, 0, []);
    } else {
      var item;
      rc, item, spot := Find(fs, path, cat);
      if rc != 0 {
        return rc, false, [], spot;
      }
      if !HasDir(item.attr) {
        return -2, false, [], spot;
      }
      if item.clus < 2 {
        return -2, false, [], spot;
      }
      DirReached(v, cat, Norm(path, PATH_CAP));
      it := BeginIter(fs, false, item.clus, cat.chains[item.clus]);
    }
    begun := true;
    rc, shown := ListRest(it, take);
    if rc == 0 {
      rc := |shown|;
    }
  }

  lemma DirReached(v: Volume, cat: Catalog, path: seq<byte>)
    requires WellFormedVolume(v, cat) && Resolve(v, cat, path).Found?
    requires var e := Resolve(v, cat, path).e; HasDir(e.attr) && e.clus >= 2
    ensures var c := Resolve(v, cat, path).e.clus;
      c in cat.dirs && c in cat.chains && ChainFrom(v, c, cat.chains[c]) && Shaped(v) && IsChain(v, cat.chains[c])
      && ListOf(v, false, c, cat.chains[c]) == Entries(v, cat, c)
  {
    hide Resolve, LiveEntries, Slots, Secs;
    FoundOk(v, cat, path);
    var c := Resolve(v, cat, path).e.clus;
    assert IsChain(v, cat.chains[c]);
    HeadIsCluster(v, cat.chains[c]);
  }
}
