/** Directory search, path lookup and listing, against the fold of `FatTree.Walk`. */
module FatStat {
  import opened Bytes
  import opened Names83
  import opened FatVolume
  import opened FatTree
  import opened FatMount
  import opened DirIter

  // ----- C strings -----

  lemma CutNulIs(s: seq<byte>, i: nat)
    requires i <= |s| && 0 !in s[..i] && (i < |s| ==> s[i] == 0)
    ensures CutNul(s) == s[..i]
  {
    var n := |CutNul(s)|;
    assert forall k :: 0 <= k < i ==> s[k] == s[..i][k];
    assert forall k :: 0 <= k < n ==> s[k] == CutNul(s)[k];
  }

  /** The case-blind comparison of two 13-byte buffers in `find_in_dir`. */
  method SameName(a: array<byte>, b: array<byte>, ghost s: seq<byte>, ghost t: seq<byte>) returns (ok: bool)
    requires a.Length == 13 && b.Length == 13
    requires HoldsText(a[..], s) && HoldsText(b[..], t)
    ensures ok <==> Upper(CutNul(s)) == Upper(CutNul(t))
  {
    var i := 0;
    while i < 13
      invariant 0 <= i <= 13 && i <= |s| && i <= |t|
      invariant forall k :: 0 <= k < i ==> Upc(a[k]) == Upc(b[k]) && a[k] != 0 && b[k] != 0
    {
      TextByte(a[..], s, i);
      TextByte(b[..], t, i);
      assert forall k :: 0 <= k < i ==> s[k] == a[..][k] && t[k] == b[..][k];
      if Upc(a[i]) != Upc(b[i]) {
        DifferentAt(s, t, i);
        return false;
      }
      if a[i] == 0 && b[i] == 0 {
        CutNulIs(s, i);
        CutNulIs(t, i);
        return true;
      }
      i := i + 1;
    }
    assert false;
    return false;
  }

  lemma TextByte(buf: seq<byte>, s: seq<byte>, i: nat)
    requires HoldsText(buf, s) && i <= |s|
    ensures forall k :: 0 <= k < |s| ==> buf[k] == s[k]
    ensures buf[i] == if i < |s| then s[i] else 0
  {
    assert forall k :: 0 <= k < |s| ==> buf[k] == buf[..|s|][k];
  }

  lemma DifferentAt(s: seq<byte>, t: seq<byte>, i: nat)
    requires i <= |s| && i <= |t| && 0 !in s[..i] && 0 !in t[..i]
    requires Upc(if i < |s| then s[i] else 0) != Upc(if i < |t| then t[i] else 0)
    ensures Upper(CutNul(s)) != Upper(CutNul(t))
  {
    CutNulCovers(s, i);
    CutNulCovers(t, i);
    if i < |CutNul(s)| && i < |CutNul(t)| {
      assert Upper(CutNul(s))[i] == Upc(s[i]) && Upper(CutNul(t))[i] == Upc(t[i]);
    }
  }

  lemma CutNulCovers(s: seq<byte>, i: nat)
    requires i <= |s| && 0 !in s[..i]
    ensures i <= |CutNul(s)|
  {
    assert forall k :: 0 <= k < i ==> s[k] == s[..i][k];
  }

  // ----- one directory -----

  // The entries the driver sees in the root, or in the chain from `first`.
  function ListOf(v: Volume, inRoot: bool, first: u16, cs: seq<u16>): seq<Entry> {
    if inRoot then LiveEntries(Slots(v.root))
    else if first < 2 || IsEoc(first) then []
    else LiveEntries(Slots(Secs(v.data, cs)))
  }

  ghost predicate ChainFrom(v: Volume, first: u16, cs: seq<u16>) {
    Shaped(v) && (first < 2 || IsEoc(first) || (IsChain(v, cs) && cs[0] == first))
  }

  lemma LookupStep(e: Entry, es: seq<Entry>, key: seq<byte>)
    ensures Lookup([e] + es, key) == if Key(e.name) == key then Some(e) else Lookup(es, key)
  {
    assert ([e] + es)[1..] == es;
  }

  method BeginIter(fs: Fat16, inRoot: bool, dirClus: u16, ghost cs: seq<u16>) returns (it: FatDirIter)
    requires fs.Mounted() && (inRoot || ChainFrom(fs.View(), dirClus, cs))
    ensures fresh(it) && it.Valid() && !it.done && it.fs == fs
    ensures LiveEntries(it.Rest()) == ListOf(fs.View(), inRoot, dirClus, cs)
  {
    if inRoot {
      it := new FatDirIter.Root(fs);
    } else {
      it := new FatDirIter.Sub(fs, dirClus, cs);
    }
  }

  /** `find_in_dir`: the first live entry of that name, or 1 if the directory has none. */
  method FindInDir(fs: Fat16, inRoot: bool, dirClus: u16, target11: Name11, ghost cs: seq<u16>)
    returns (rc: int, item: Item, ghost e: Entry)
    requires fs.Mounted() && (inRoot || ChainFrom(fs.View(), dirClus, cs))
    modifies fs.disk`readFaults
    ensures fs.disk.readFaults >= old(fs.disk.readFaults)
    ensures var found := Lookup(ListOf(fs.View(), inRoot, dirClus, cs), Key(target11));
      && (rc == 0 ==> found == Some(e) && item == Item(e.attr, e.clus, e.size))
      && (rc == 1 ==> found == None)
      && (rc != 0 && rc != 1 ==> rc < 0 && fs.disk.readFaults > old(fs.disk.readFaults))
  {
    hide ViewOf, Laid, Decode, LiveEntries, Slots, Secs, Lookup, IsChain, CutNul, HoldsText;
    var tname := new byte[13];
    var tmp := new byte[13];
    Name11ToName83(target11, tname);
    TextHeld(tname[..], Decode(target11));
    var it := BeginIter(fs, inRoot, dirClus, cs);
    item, e := Item(0, 0, 0), Entry(target11, 0, 0, 0);
    ghost var faults := fs.disk.readFaults;
    while true
      invariant it.Valid() && !it.done && it.fs == fs && fs.Mounted() && fs.disk.readFaults >= faults
      invariant fresh(it)
      invariant Lookup(LiveEntries(it.Rest()), Key(target11))
        == Lookup(ListOf(fs.View(), inRoot, dirClus, cs), Key(target11))
      invariant HoldsText(tname[..], Decode(target11))
      decreases |LiveEntries(it.Rest())|
    {
      rc, item, e := it.GetNext(tmp);
      if rc != 0 {
        if rc == 1 { LookupNothing(Key(target11)); }
        return rc, item, e;
      }
      LookupStep(e, LiveEntries(it.Rest()), Key(target11));
      var ok := SameName(tmp, tname, Decode(e.name), Decode(target11));
      if ok {
        return 0, item, e;
      }
    }
  }

  lemma TextHeld(buf: seq<byte>, text: seq<byte>)
    requires |text| < |buf| && buf[..|text|] == text && buf[|text|] == 0
    ensures HoldsText(buf, text)
  {
  }

  lemma LookupNothing(key: seq<byte>)
    ensures Lookup([], key) == None
  {
  }

  // What names in a directory look like: well formed, or the two dot names.
  predicate Usual(n: Name11) {
    WellFormed(n) || n == DOT_NAME || n == DOTDOT_NAME
  }

  // The same 11 bytes, or ".." as the encoder and as a directory has it.
  predicate SameRaw(n: Name11, target: Name11) {
    n == target || (n == DOTDOT_NAME && Key(target) == DOTDOT_KEY)
  }

  // Entry i is the first of that name.
  ghost predicate FirstNamed(es: seq<Entry>, target: Name11, i: nat) {
    i < |es| && SameRaw(es[i].name, target) && forall j :: 0 <= j < i ==> !SameRaw(es[j].name, target)
  }

  lemma UsualKeys(n: Name11, target: Name11)
    requires Usual(n) && WellFormed(target)
    ensures Key(n) == Key(target) <==> SameRaw(n, target)
  {
    hide Decode;
    DotKeys();
    DotsAreOdd();
    if WellFormed(n) {
      KeyIsInjective(n, target);
    } else if n == DOT_NAME {
      NoDotKey(target);
    }
  }

  lemma DotsAreOdd()
    ensures !WellFormed(DOT_NAME) && !WellFormed(DOTDOT_NAME)
  {
    assert DOT_NAME[..8][0] == DOT && DOTDOT_NAME[..8][0] == DOT;
  }

  // No well-formed name prints as ".".
  lemma NoDotKey(n: Name11)
    requires WellFormed(n)
    ensures Key(n) != DOT_KEY
  {
    hide Decode, Pad, UpToSpace, Upper;
    KeyOfWellFormed(n);
    DecodeFields(n);
    var u, e := UpToSpace(n[..8]), UpToSpace(n[8..]);
    var k := u + (if e == [] then [] else [DOT] + e);
    if u == [] {
      assert |k| != |DOT_KEY|;
    } else {
      assert u[0] in u && k[0] == u[0] != DOT;
    }
  }

  /**
   In a directory of such names, and for a well-formed target, the comparison of printed names
   is one of raw bytes: what is found is the first entry with the target's 11, and the only
   target that finds other bytes than its own is "..".
   */
  lemma {:induction false} LookupIsByName(es: seq<Entry>, target: Name11)
    requires WellFormed(target) && forall i :: 0 <= i < |es| ==> Usual(es[i].name)
    ensures Lookup(es, Key(target)).None? <==> forall i :: 0 <= i < |es| ==> !SameRaw(es[i].name, target)
    ensures forall i: nat :: FirstNamed(es, target, i) ==> Lookup(es, Key(target)) == Some(es[i])
    ensures PlainKey(Key(target)) ==> forall n :: SameRaw(n, target) <==> n == target
  {
    hide Key, WellFormed, Usual, SameRaw;
    PlainIsRaw(target);
    if es != [] {
      UsualKeys(es[0].name, target);
      LookupIsByName(es[1..], target);
      assert forall i :: 0 <= i < |es| - 1 ==> es[1..][i] == es[i + 1];
      assert forall i :: 0 < i < |es| ==> es[i] == es[1..][i - 1];
      forall i: nat | FirstNamed(es, target, i)
        ensures Lookup(es, Key(target)) == Some(es[i])
      {
        assert i > 0 ==> FirstNamed(es[1..], target, i - 1);
      }
    }
  }

  lemma PlainIsRaw(target: Name11)
    ensures PlainKey(Key(target)) ==> forall n :: SameRaw(n, target) <==> n == target
  {
    hide Key;
  }

  // ----- paths -----

  /** What a catalog must say for the driver to follow it: where each directory's chain goes. */
  ghost predicate Readable(v: Volume, cat: Catalog) {
    && Shaped(v) && 0 !in cat.dirs
    && forall d <- cat.dirs :: d in cat.chains && IsChain(v, cat.chains[d]) && cat.chains[d][0] == d
  }

  // A directory the walk steps into is one of the catalog, or shows as empty.
  ghost predicate SpotOk(cat: Catalog, spot: Spot) {
    spot.Found? && HasDir(spot.e.attr) ==> spot.e.clus < 2 || IsEoc(spot.e.clus) || spot.e.clus in cat.dirs
  }

  ghost predicate Travels(v: Volume, cat: Catalog, comps: seq<seq<byte>>) {
    forall n :: 0 <= n <= |comps| ==> SpotOk(cat, Walk(v, cat, comps[..n]))
  }

  lemma ReadableVolume(v: Volume, cat: Catalog)
    requires WellFormedVolume(v, cat)
    ensures Readable(v, cat)
  {
    forall d <- cat.dirs
      ensures d != 0
    {
      assert IsChain(v, cat.chains[d]);
    }
  }

  lemma LookupMember(es: seq<Entry>, key: seq<byte>)
    requires Lookup(es, key).Some?
    ensures Lookup(es, key).value in es
  {
  }

  // On a well-formed volume every walk stays inside the catalog.
  lemma WalkStaysOk(v: Volume, cat: Catalog, comps: seq<seq<byte>>)
    requires WellFormedVolume(v, cat)
    ensures SpotOk(cat, Walk(v, cat, comps))
  {
    hide Encode, Key;
    if comps != [] && Walk(v, cat, comps).Found? {
      var before, comp := Walk(v, cat, comps[..|comps| - 1]), comps[|comps| - 1];
      var d := if before.AtRoot? then 0 else before.e.clus;
      LookupMember(Entries(v, cat, d), Key(Encode(comp).name));
      assert IsDirOf(cat, d) && DirOk(v, cat, d);
      assert EntryOk(v, cat, Walk(v, cat, comps).e);
    }
  }

  lemma WellFormedTravels(v: Volume, cat: Catalog, comps: seq<seq<byte>>)
    requires WellFormedVolume(v, cat)
    ensures Travels(v, cat, comps)
  {
    forall n | 0 <= n <= |comps|
      ensures SpotOk(cat, Walk(v, cat, comps[..n]))
    {
      WalkStaysOk(v, cat, comps[..n]);
    }
  }

  lemma {:induction false} FailStays(v: Volume, cat: Catalog, seen: seq<seq<byte>>, more: seq<seq<byte>>)
    requires Walk(v, cat, seen).Fail?
    ensures Walk(v, cat, seen + more) == Walk(v, cat, seen)
  {
    hide Encode, Key;
    if more == [] {
      assert seen + more == seen;
    } else {
      var n := |more| - 1;
      FailStays(v, cat, seen, more[..n]);
      assert (seen + more)[..|seen + more| - 1] == seen + more[..n];
    }
  }

  // The next component, as the extraction loop sees it.
  lemma ComponentsAt(path: seq<byte>, pos: nat, n: nat)
    requires pos + n <= |path| && n > 0
    requires forall k :: pos <= k < pos + n ==> !EndsName(path[k])
    requires pos + n < |path| ==> EndsName(path[pos + n])
    ensures Components(path[pos..]) == [path[pos..pos + n]] + Components(path[pos + n..])
  {
    var s := path[pos..];
    assert forall k :: 0 <= k < n ==> s[k] == path[pos + k];
    assert n < |s| ==> s[n] == path[pos + n];
    assert NameEnd(s, 0) == n;
    assert s[..n] == path[pos..pos + n] && s[n..] == path[pos + n..];
    assert !IsSep(s[0]) && s[0] != 0;
  }

  /** Skipping separators passes no component. */
  method SkipSeps(path: seq<byte>, start: nat) returns (pos: nat)
    requires start <= |path|
    ensures start <= pos <= |path| && !IsSep(At(path, pos))
    ensures Components(path[pos..]) == Components(path[start..])
  {
    pos := start;
    while IsSep(At(path, pos))
      invariant start <= pos <= |path| && Components(path[pos..]) == Components(path[start..])
      decreases |path| - pos
    {
      assert path[pos..][1..] == path[pos + 1..];
      pos := pos + 1;
    }
  }

  // One component resolved so far, by the code's own variables.
  ghost predicate Standing(spot: Spot, inRoot: bool, dirClus: u16) {
    !spot.Fail? && spot.AtRoot? == inRoot && (spot.Found? ==> HasDir(spot.e.attr) && spot.e.clus == dirClus)
  }

  ghost function ChainOf(cat: Catalog, c: u16): seq<u16> {
    if c in cat.dirs && c in cat.chains then cat.chains[c] else []
  }

  // The outcome of looking one component up, read off the search results.
  lemma LookIs(v: Volume, cat: Catalog, spot: Spot, inRoot: bool, dirClus: u16, comp: seq<byte>)
    requires Readable(v, cat) && SpotOk(cat, spot) && Standing(spot, inRoot, dirClus) && |comp| < 64
    ensures inRoot || ChainFrom(v, dirClus, ChainOf(cat, dirClus))
    ensures Encode(comp).Bad? ==> Look(v, cat, spot, comp) == Fail(-3)
    ensures Encode(comp).Ok? ==>
      var found := Lookup(ListOf(v, inRoot, dirClus, ChainOf(cat, dirClus)), Key(Encode(comp).name));
      Look(v, cat, spot, comp) == if found.Some? then Found(found.value) else Fail(1)
  {
    hide Encode, Key, LiveEntries, Slots, Secs;
    if spot.Found? && spot.e.clus !in cat.dirs {
      NoSlotsLive();
    } else if spot.Found? {
      HeadIsCluster(v, cat.chains[dirClus]);
    }
  }

  lemma WalkSnoc(v: Volume, cat: Catalog, seen: seq<seq<byte>>, comp: seq<byte>)
    ensures Walk(v, cat, seen + [comp]) == Look(v, cat, Walk(v, cat, seen), comp)
  {
    hide Look;
    assert (seen + [comp])[..|seen|] == seen;
  }

  lemma FailsNext(v: Volume, cat: Catalog, path: seq<byte>, pos: nat, n: nat, seen: seq<seq<byte>>)
    requires pos + n <= |path| && n > 0
    requires forall k :: pos <= k < pos + n ==> !EndsName(path[k])
    requires pos + n < |path| ==> EndsName(path[pos + n])
    requires Look(v, cat, Walk(v, cat, seen), path[pos..pos + n]).Fail?
    ensures Walk(v, cat, seen + Components(path[pos..])) == Look(v, cat, Walk(v, cat, seen), path[pos..pos + n])
  {
    hide Look, Walk;
    var comp, more := path[pos..pos + n], Components(path[pos + n..]);
    ComponentsAt(path, pos, n);
    WalkSnoc(v, cat, seen, comp);
    FailStays(v, cat, seen + [comp], more);
    assert seen + ([comp] + more) == (seen + [comp]) + more;
  }

  // A component of more than 63 characters fails the walk.
  lemma LongComponent(v: Volume, cat: Catalog, path: seq<byte>, pos: nat, seen: seq<seq<byte>>)
    requires pos + 64 <= |path| && forall k :: pos <= k < pos + 64 ==> !EndsName(path[k])
    requires var spot := Walk(v, cat, seen); !spot.Fail? && (spot.Found? ==> HasDir(spot.e.attr))
    ensures Walk(v, cat, seen + Components(path[pos..])) == Fail(-2)
  {
    hide Encode, Key, Walk, Components;
    FailsNext(v, cat, path, pos, NameEnd(path, pos + 64) - pos, seen);
  }

  // A file with a component after it fails the walk.
  lemma NotADirectory(v: Volume, cat: Catalog, path: seq<byte>, pos: nat, seen: seq<seq<byte>>)
    requires pos < |path| && !EndsName(path[pos])
    requires var spot := Walk(v, cat, seen); spot.Found? && !HasDir(spot.e.attr)
    ensures Walk(v, cat, seen + Components(path[pos..])) == Fail(-5)
  {
    hide Encode, Key, Walk, Components;
    FailsNext(v, cat, path, pos, NameEnd(path, pos) - pos, seen);
  }

  function SpotItem(spot: Spot): Item
    requires !spot.Fail?
  {
    if spot.AtRoot? then Item(ATTR_DIR, 0, 0) else Item(spot.e.attr, spot.e.clus, spot.e.size)
  }

  /** The body of the lookup loop: one component searched for in the current directory. */
  method StepComponent(fs: Fat16, comp: seq<byte>, inRoot: bool, dirClus: u16, ghost cat: Catalog, ghost spot: Spot)
    returns (rc: int, item: Item, ghost next: Spot)
    requires fs.Mounted() && Readable(fs.View(), cat) && SpotOk(cat, spot) && Standing(spot, inRoot, dirClus)
    requires |comp| < 64
    modifies fs.disk`readFaults
    ensures fs.disk.readFaults >= old(fs.disk.readFaults)
    ensures next == Look(fs.View(), cat, spot, comp)
    ensures rc == 0 ==> next.Found? && item == SpotItem(next)
    ensures rc != 0 ==> next == Fail(rc) || (rc < 0 && fs.disk.readFaults > old(fs.disk.readFaults))
  {
    hide Encode, Key, ListOf, ViewOf, Laid, ChainFrom, Readable, Lookup, Look, ChainOf;
    item, next := Item(0, 0, 0), Look(fs.View(), cat, spot, comp);
    LookIs(fs.View(), cat, spot, inRoot, dirClus, comp);
    var t11 := new byte[11];
    rc := MakeName11(comp, t11);
    if rc != 0 {
      return -3, item, next;
    }
    ghost var e;
    rc, item, e := FindInDir(fs, inRoot, dirClus, t11[..], ChainOf(cat, dirClus));
  }

  /** The extraction loop: the length of the component at `pos`, if it fits a 64-byte buffer. */
  method TakeComponent(path: seq<byte>, pos: nat) returns (fits: bool, n: nat)
    requires pos < |path| && !EndsName(path[pos])
    ensures pos + n <= |path| && forall k :: pos <= k < pos + n ==> !EndsName(path[k])
    ensures fits ==> 0 < n < 64 && EndsName(At(path, pos + n))
    ensures !fits ==> n == 63 && pos + 63 < |path| && !EndsName(path[pos + 63])
  {
    n := 0;
    while !EndsName(At(path, pos + n))
      invariant pos + n <= |path| && n < 64
      invariant forall k :: pos <= k < pos + n ==> !EndsName(path[k])
      decreases |path| - pos - n
    {
      if n >= 63 {
        return false, n;
      }
      n := n + 1;
    }
    return true, n;
  }

  /**
   `fat16_stat_path83`. With no read fault the result is that of the walk: 0 and the entry,
   1 if a name is missing, or the walk's own error code.
   */
  method StatPath(fs: Fat16, path: seq<byte>, ghost cat: Catalog) returns (rc: int, item: Item)
    requires fs.Mounted() && Readable(fs.View(), cat) && Travels(fs.View(), cat, Components(path))
    modifies fs.disk`readFaults
    ensures fs.disk.readFaults >= old(fs.disk.readFaults)
    ensures var spot := Resolve(fs.View(), cat, path);
      && (rc == 0 ==> !spot.Fail? && item == SpotItem(spot))
      && (rc != 0 ==> spot == Fail(rc) || (rc < 0 && fs.disk.readFaults > old(fs.disk.readFaults)))
  {
    hide Encode, Key, ViewOf, Laid, Lookup, Look, Readable, Components, Walk;
    item := Item(0, 0, 0);
    var pos := SkipSeps(path, 0);
    assert path[0..] == path;
    EndOfPath(fs.View(), cat, path, pos);
    if At(path, pos) == 0 {
      return 0, Item(ATTR_DIR, 0, 0);
    }
    var inRoot, dirClus := true, 0;
    ghost var v, all, seen, spot := fs.View(), Components(path), [], AtRoot;
    ghost var faults := fs.disk.readFaults;
    while At(path, pos) != 0
      invariant pos < |path| && !EndsName(path[pos])
      invariant fs.disk.readFaults >= faults && fs.View() == v
      invariant all == seen + Components(path[pos..])
      invariant spot == Walk(v, cat, seen) && Standing(spot, inRoot, dirClus)
      decreases |path| - pos
    {
      var fits, n := TakeComponent(path, pos);
      if !fits {
        LongComponent(v, cat, path, pos, seen);
        assert Walk(v, cat, all) == Fail(-2);
        return -2, item;
      }
      var comp := path[pos..pos + n];
      assert SpotOk(cat, spot) by { assert all[..|seen|] == seen; }
      ghost var next;
      rc, item, next := StepComponent(fs, comp, inRoot, dirClus, cat, spot);
      if rc != 0 {
        if next.Fail? {
          FailsNext(v, cat, path, pos, n, seen);
          assert Walk(v, cat, all) == next;
        }
        return rc, item;
      }
      ComponentsAt(path, pos, n);
      WalkSnoc(v, cat, seen, comp);
      ghost var more := Components(path[pos + n..]);
      assert seen + ([comp] + more) == (seen + [comp]) + more;
      pos := SkipSeps(path, pos + n);
      seen, spot := seen + [comp], next;
      assert all == seen + Components(path[pos..]);
      if At(path, pos) == 0 {
        EndOfPath(v, cat, path, pos);
        assert all == seen;
        return 0, item;
      }
      if !HasDir(item.attr) {
        NotADirectory(v, cat, path, pos, seen);
        assert Walk(v, cat, all) == Fail(-5);
        return -5, item;
      }
      inRoot := false;
      dirClus := item.clus;
    }
    assert false;
    return -6, item;
  }

  // ----- case and separators in paths -----

  ghost predicate AlikeComps(a: seq<seq<byte>>, b: seq<seq<byte>>) {
    |a| == |b| && forall k :: 0 <= k < |a| ==> Component(a[k]) && AlikeText(a[k], b[k])
  }

  lemma {:induction false} ComponentsAlike(p: seq<byte>, q: seq<byte>)
    requires AlikeText(p, q)
    ensures AlikeComps(Components(p), Components(q))
  {
    hide Component;
    if p != [] && p[0] != 0 {
      assert Alike(p[0], q[0]);
      if IsSep(p[0]) {
        ComponentsAlike(p[1..], q[1..]);
      } else {
        var e := NameEnd(p, 0);
        assert forall k :: 0 <= k < |p| ==> Alike(p[k], q[k]);
        NameEndAt(q, 0, e);
        ComponentsAlike(p[e..], q[e..]);
        assert Component(p[..e]) by { PartIsComponent(p, e); }
      }
    }
  }

  lemma PartIsComponent(p: seq<byte>, e: nat)
    requires e <= |p| && forall k :: 0 <= k < e ==> !EndsName(p[k])
    ensures Component(p[..e])
  {
  }

  lemma {:induction false} WalkAlike(v: Volume, cat: Catalog, a: seq<seq<byte>>, b: seq<seq<byte>>)
    requires AlikeComps(a, b)
    ensures Walk(v, cat, a) == Walk(v, cat, b)
  {
    hide Encode, Key, Component;
    if a != [] {
      var n := |a| - 1;
      WalkAlike(v, cat, a[..n], b[..n]);
      EncodeFoldsCase(a[n], b[n]);
    }
  }

  /**
   A path leads where it leads in whatever case its letters are and whichever of the two
   separators it uses.
   */
  lemma ResolveAlike(v: Volume, cat: Catalog, p: seq<byte>, q: seq<byte>)
    requires AlikeText(p, q)
    ensures Resolve(v, cat, p) == Resolve(v, cat, q)
  {
    hide Components, Walk, AlikeComps;
    ComponentsAlike(p, q);
    WalkAlike(v, cat, Components(p), Components(q));
  }

  lemma EndOfPath(v: Volume, cat: Catalog, path: seq<byte>, pos: nat)
    requires pos <= |path|
    ensures At(path, pos) == 0 ==> Components(path[pos..]) == []
    ensures Walk(v, cat, []) == AtRoot
  {
  }
}
