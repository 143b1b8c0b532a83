/** A successful mkdir, seen through paths: the old tree plus one directory. */
module FatTreeChange {
  import opened Bytes
  import opened Names83
  import opened FatVolume
  import opened FatTree
  import opened FatInsert

  // A component that names something other than "." or "..".
  predicate Plain(comp: seq<byte>) {
    |comp| < 64 && Encode(comp).Ok? && PlainKey(CompKey(comp))
  }

  function CompKey(comp: seq<byte>): seq<byte>
    requires Encode(comp).Ok?
  {
    Key(Encode(comp).name)
  }

  ghost predicate PlainPath(q: seq<seq<byte>>) {
    forall i :: 0 <= i < |q| ==> Plain(q[i])
  }

  // Two paths spell the same names.
  ghost predicate SamePath(p: seq<seq<byte>>, q: seq<seq<byte>>)
    requires PlainPath(p) && PlainPath(q)
  {
    |p| == |q| && forall i :: 0 <= i < |p| ==> CompKey(p[i]) == CompKey(q[i])
  }

  // p spells the beginning of q.
  ghost predicate Leads(p: seq<seq<byte>>, q: seq<seq<byte>>)
    requires PlainPath(p) && PlainPath(q)
  {
    |p| <= |q| && forall i :: 0 <= i < |p| ==> CompKey(p[i]) == CompKey(q[i])
  }

  // The directory a walk has arrived at, if any.
  function DirAt(cat: Catalog, spot: Spot): Option<u16> {
    match spot
    case AtRoot => Some(0)
    case Found(e) => if HasDir(e.attr) && e.clus in cat.dirs then Some(e.clus) else None
    case Fail(_) => None
  }

  lemma RootIsNoChain(v: Volume, cat: Catalog)
    requires WellFormedVolume(v, cat)
    ensures 0 !in cat.dirs && forall c <- cat.dirs :: c >= 2
  {
    forall c <- cat.dirs
      ensures c >= 2
    {
      assert IsChain(v, cat.chains[c]);
    }
  }

  lemma LookupIsMember(es: seq<Entry>, key: seq<byte>)
    requires Lookup(es, key).Some?
    ensures Lookup(es, key).value in es && Key(Lookup(es, key).value.name) == key
  {
  }

  // One step of the walk, by comparison key.
  function StepKey(v: Volume, cat: Catalog, spot: Spot, key: seq<byte>): Spot {
    match DirAt(cat, spot)
    case Some(d) => (match Lookup(Entries(v, cat, d), key)
                     case None => Fail(1)
                     case Some(e) => Found(e))
    case None => if spot.Found? then Fail(if HasDir(spot.e.attr) then 1 else -5) else spot
  }

  lemma PlainLook(v: Volume, cat: Catalog, spot: Spot, comp: seq<byte>)
    requires Plain(comp)
    ensures Look(v, cat, spot, comp) == StepKey(v, cat, spot, CompKey(comp))
  {
    hide Entries, Encode, Key;
  }

  // How a plain path came to stand at directory d: by d's own home.
  lemma ArrivedHome(v: Volume, cat: Catalog, q: seq<seq<byte>>)
    requires WellFormedVolume(v, cat) && PlainPath(q) && q != []
    requires DirAt(cat, Walk(v, cat, q)).Some?
    ensures var d, before := DirAt(cat, Walk(v, cat, q)).value, DirAt(cat, Walk(v, cat, q[..|q| - 1]));
      d != 0 && d in cat.home && before.Some? && cat.home[d] == (before.value, CompKey(q[|q| - 1]))
  {
    hide Entries, Encode, Key, Look;
    RootIsNoChain(v, cat);
    var spot, comp := Walk(v, cat, q[..|q| - 1]), q[|q| - 1];
    assert Plain(comp);
    PlainLook(v, cat, spot, comp);
    var b := DirAt(cat, spot).value;
    var es := Entries(v, cat, b);
    LookupIsMember(es, CompKey(comp));
    var e := Lookup(es, CompKey(comp)).value;
    assert DirOk(v, cat, b);
    assert AtHome(cat, b, e);
  }

  /** The directories form a tree: one plain path, up to spelling, leads to each. */
  lemma {:induction false} PathToDirIsUnique(v: Volume, cat: Catalog, p: seq<seq<byte>>, q: seq<seq<byte>>)
    requires WellFormedVolume(v, cat) && PlainPath(p) && PlainPath(q)
    requires DirAt(cat, Walk(v, cat, p)).Some? && DirAt(cat, Walk(v, cat, p)) == DirAt(cat, Walk(v, cat, q))
    ensures SamePath(p, q)
    decreases |p|
  {
    hide WellFormedVolume, Look, CompKey;
    if p != [] && q != [] {
      ArrivedHome(v, cat, p);
      ArrivedHome(v, cat, q);
      PathToDirIsUnique(v, cat, p[..|p| - 1], q[..|q| - 1]);
      assert forall i :: 0 <= i < |p| - 1 ==> p[..|p| - 1][i] == p[i] && q[..|q| - 1][i] == q[i];
    } else if p != [] {
      ArrivedHome(v, cat, p);
    } else if q != [] {
      ArrivedHome(v, cat, q);
    }
  }

  lemma {:induction false} WalkReadsNames(v: Volume, cat: Catalog, p: seq<seq<byte>>, q: seq<seq<byte>>)
    requires PlainPath(p) && PlainPath(q) && SamePath(p, q)
    ensures Walk(v, cat, p) == Walk(v, cat, q)
  {
    hide Look, CompKey;
    if p != [] {
      var n := |p| - 1;
      WalkReadsNames(v, cat, p[..n], q[..n]);
      assert Plain(p[n]) && Plain(q[n]) && CompKey(p[n]) == CompKey(q[n]);
      PlainLook(v, cat, Walk(v, cat, p[..n]), p[n]);
      PlainLook(v, cat, Walk(v, cat, p[..n]), q[n]);
    }
  }

  // What a path shows once `made` has become the directory at path p ++ [leaf].
  function AfterMkdir(made: Entry, was: Spot, same: bool, beyond: bool): Spot {
    if same then Found(made) else if beyond then Fail(1) else was
  }

  // One more component, when the new directory is not yet on the path.
  lemma StepElsewhere(v: Volume, cat: Catalog, w: Volume, cat': Catalog, d: u16, name: Name11, nc: u16,
                      spot: Spot, comp: seq<byte>)
    requires WellFormedVolume(v, cat) && Made(v, cat, w, cat', d, name, nc)
    requires Lookup(Entries(v, cat, d), Key(name)).None?
    requires Plain(comp) && (spot.Found? && HasDir(spot.e.attr) ==> spot.e.clus != nc)
    ensures Look(w, cat', spot, comp)
         == if DirAt(cat, spot) == Some(d) && CompKey(comp) == Key(name) then Found(DirEntry(name, nc))
            else Look(v, cat, spot, comp)
  {
    hide Look, CompKey, Entries, WellFormedVolume, Inserted, Lookup;
    PlainLook(v, cat, spot, comp);
    PlainLook(w, cat', spot, comp);
    if DirAt(cat, spot) == Some(d) {
      InsertedLookup(Entries(v, cat, d), DirEntry(name, nc), Entries(w, cat', d), CompKey(comp));
    }
  }

  lemma StepInside(w: Volume, cat': Catalog, d: u16, name: Name11, nc: u16, comp: seq<byte>)
    requires nc in cat'.dirs && Entries(w, cat', nc) == DotEntries(nc, d) && Plain(comp)
    ensures Look(w, cat', Found(DirEntry(name, nc)), comp) == Fail(1)
  {
    hide Look, Entries, Encode, Key;
    PlainLook(w, cat', Found(DirEntry(name, nc)), comp);
    DotKeys();
    var es := DotEntries(nc, d);
    var key := CompKey(comp);
    assert es[1..][0] == es[1] && es[1..][1..] == [];
    assert Lookup(es[1..], key) == Lookup([], key) == None;
    assert Lookup(es, key) == None;
    assert DirAt(cat', Found(DirEntry(name, nc))) == Some(nc);
  }

  // Entries stored before the mkdir never point at its cluster.
  lemma OldEntriesMissNew(v: Volume, cat: Catalog, nc: u16, q: seq<seq<byte>>)
    requires WellFormedVolume(v, cat) && nc !in cat.dirs && nc >= 2 && PlainPath(q)
    ensures var spot := Walk(v, cat, q); spot.Found? && HasDir(spot.e.attr) ==> spot.e.clus != nc
  {
    hide Look, Encode, Key;
    if q != [] && Walk(v, cat, q).Found? {
      var before, comp := Walk(v, cat, q[..|q| - 1]), q[|q| - 1];
      assert Plain(comp);
      PlainLook(v, cat, before, comp);
      var b := DirAt(cat, before).value;
      LookupIsMember(Entries(v, cat, b), CompKey(comp));
      assert DirOk(v, cat, b);
      assert EntryOk(v, cat, Walk(v, cat, q).e);
    }
  }

  /**
   After mkdir of `leaf` in the directory at `parent`, a plain path leads to the new
   directory if it spells that path, to nothing if it goes on beyond it, and otherwise
   exactly where it led before.
   */
  lemma {:induction false} MkdirTree(v: Volume, cat: Catalog, w: Volume, cat': Catalog, d: u16, nc: u16,
                                     parent: seq<seq<byte>>, leaf: seq<byte>, q: seq<seq<byte>>)
    requires WellFormedVolume(v, cat) && PlainPath(parent) && Plain(leaf) && PlainPath(q)
    requires DirAt(cat, Walk(v, cat, parent)) == Some(d)
    requires Made(v, cat, w, cat', d, Encode(leaf).name, nc)
    requires Lookup(Entries(v, cat, d), CompKey(leaf)).None?
    ensures PlainPath(parent + [leaf])
    ensures Walk(w, cat', q) ==
      AfterMkdir(DirEntry(Encode(leaf).name, nc), Walk(v, cat, q), SamePath(parent + [leaf], q),
                 Leads(parent + [leaf], q))
  {
    hide WellFormedVolume, Look, CompKey, Lookup, Entries, Inserted;
    var p, name := parent + [leaf], Encode(leaf).name;
    assert PlainPath(p);
    if q == [] {
      assert !Leads(p, q);
    } else {
      var before, comp := q[..|q| - 1], q[|q| - 1];
      assert Plain(comp);
      assert forall i :: 0 <= i < |before| ==> before[i] == q[i];
      MkdirTree(v, cat, w, cat', d, nc, parent, leaf, before);
      if SamePath(p, before) {
        assert Leads(p, q);
        StepInside(w, cat', d, name, nc, comp);
      } else if Leads(p, before) {
        assert Leads(p, q);
        PlainLook(w, cat', Walk(w, cat', before), comp);
      } else {
        MkdirTreeStep(v, cat, w, cat', d, nc, parent, leaf, q);
      }
    }
  }

  lemma MkdirTreeStep(v: Volume, cat: Catalog, w: Volume, cat': Catalog, d: u16, nc: u16,
                      parent: seq<seq<byte>>, leaf: seq<byte>, q: seq<seq<byte>>)
    requires WellFormedVolume(v, cat) && PlainPath(parent) && Plain(leaf) && PlainPath(q) && q != []
    requires DirAt(cat, Walk(v, cat, parent)) == Some(d)
    requires Made(v, cat, w, cat', d, Encode(leaf).name, nc)
    requires Lookup(Entries(v, cat, d), CompKey(leaf)).None?
    requires PlainPath(parent + [leaf]) && PlainPath(q[..|q| - 1]) && !Leads(parent + [leaf], q[..|q| - 1])
    requires Walk(w, cat', q[..|q| - 1]) == Walk(v, cat, q[..|q| - 1])
    ensures Walk(w, cat', q) ==
      AfterMkdir(DirEntry(Encode(leaf).name, nc), Walk(v, cat, q), SamePath(parent + [leaf], q),
                 Leads(parent + [leaf], q))
  {
    hide WellFormedVolume, Inserted, KeepsFiles, Look, Key, Encode, Lookup, Entries, DirEntry, SamePath, Leads,
         PlainPath;
    var p, before, comp := parent + [leaf], q[..|q| - 1], q[|q| - 1];
    assert Plain(comp) by { LastIsPlain(q); }
    SamePathSplit(parent, leaf, q);
    OldEntriesMissNew(v, cat, nc, before);
    StepElsewhere(v, cat, w, cat', d, Encode(leaf).name, nc, Walk(v, cat, before), comp);
    if SamePath(parent, before) {
      WalkReadsNames(v, cat, parent, before);
    } else if DirAt(cat, Walk(v, cat, before)) == Some(d) {
      PathToDirIsUnique(v, cat, parent, before);
    }
  }

  lemma LastIsPlain(q: seq<seq<byte>>)
    requires PlainPath(q) && q != []
    ensures Plain(q[|q| - 1])
  {
  }

  lemma SamePathSplit(parent: seq<seq<byte>>, leaf: seq<byte>, q: seq<seq<byte>>)
    requires PlainPath(parent) && Plain(leaf) && PlainPath(q) && q != []
    ensures PlainPath(parent + [leaf]) && PlainPath(q[..|q| - 1])
    ensures SamePath(parent + [leaf], q)
       <==> SamePath(parent, q[..|q| - 1]) && CompKey(q[|q| - 1]) == CompKey(leaf)
    ensures !Leads(parent + [leaf], q[..|q| - 1]) && Leads(parent + [leaf], q) ==> SamePath(parent + [leaf], q)
  {
    hide CompKey;
    var p, before := parent + [leaf], q[..|q| - 1];
    assert forall i :: 0 <= i < |before| ==> before[i] == q[i];
    assert forall i :: 0 <= i < |parent| ==> p[i] == parent[i];
  }
}
