/** Adding a directory: the contents of its first cluster, and its entry in the parent. */
module FatInsert {
  import opened Bytes
  import opened Names83
  import opened FatVolume
  import opened FatTree
  import opened FatSteps

  // ----- slots -----

  // A directory entry as `fat16_mkdir_path83` lays it out.
  function DirSlot(name: Name11, c: u16): (s: Slot)
    ensures EntryOf(s) == Entry(name, ATTR_DIR, c, 0)
  {
    var s: seq<byte> := name + [ATTR_DIR] + seq(14, _ => 0) + [c % 0x100, c / 0x100] + seq(4, _ => 0);
    assert s[..11] == name;
    s
  }

  /** Its bytes: the entry's fields in their places, and zeros everywhere else. */
  lemma DirSlotLayout(name: Name11, c: u16)
    ensures HoldsEntry(DirSlot(name, c), Entry(name, 0x10, c, 0))
    ensures forall k :: 12 <= k < 26 ==> DirSlot(name, c)[k] == 0
  {
    SlotLayout(DirSlot(name, c), Entry(name, ATTR_DIR, c, 0));
  }

  lemma DirSlotLive(name: Name11, c: u16)
    ensures DirSlot(name, c)[0] == name[0]
    ensures IsLive(DirSlot(name, c)) <==> name[0] != 0 && name[0] != 0xE5
  {
    assert DirSlot(name, c)[11] == ATTR_DIR;
  }

  function PutSlot(sec: Sector, i: nat, s: Slot): (r: Sector)
    requires i < 16
  {
    sec[..i * 32] + s + sec[i * 32 + 32..]
  }

  lemma PutSlotReads(sec: Sector, i: nat, s: Slot, k: nat)
    requires i < 16 && k < 16
    ensures SlotOf(PutSlot(sec, i, s), k) == if k == i then s else SlotOf(sec, k)
  {
  }

  lemma SlotsUpdate(secs: seq<Sector>, j: nat, i: nat, s: Slot)
    requires j < |secs| && i < 16
    ensures j * 16 + i < |Slots(secs)|
    ensures Slots(secs[j := PutSlot(secs[j], i, s)]) == Slots(secs)[j * 16 + i := s]
  {
    var secs' := secs[j := PutSlot(secs[j], i, s)];
    forall k | 0 <= k < |secs| * 16
      ensures Slots(secs')[k] == Slots(secs)[j * 16 + i := s][k]
    {
      PutSlotReads(secs[j], i, s, k % 16);
    }
  }

  // ----- the first cluster of a new directory -----

  function DirSector(nc: u16, parent: u16): Sector {
    PutSlot(PutSlot(ZeroSector(), 0, DirSlot(DOT_NAME, nc)), 1, DirSlot(DOTDOT_NAME, parent))
  }

  function NewDir(spc: nat, nc: u16, parent: u16): (r: seq<Sector>)
    requires spc > 0
    ensures |r| == spc
  {
    [DirSector(nc, parent)] + seq(spc - 1, _ => ZeroSector())
  }

  function DotEntries(nc: u16, parent: u16): seq<Entry> {
    [Entry(DOT_NAME, ATTR_DIR, nc, 0), Entry(DOTDOT_NAME, ATTR_DIR, parent, 0)]
  }

  lemma DirSectorSlots(nc: u16, parent: u16, k: nat)
    requires k < 16
    ensures SlotOf(DirSector(nc, parent), k)
         == if k == 0 then DirSlot(DOT_NAME, nc) else if k == 1 then DirSlot(DOTDOT_NAME, parent)
            else SlotOf(ZeroSector(), k)
  {
    PutSlotReads(ZeroSector(), 0, DirSlot(DOT_NAME, nc), k);
    PutSlotReads(PutSlot(ZeroSector(), 0, DirSlot(DOT_NAME, nc)), 1, DirSlot(DOTDOT_NAME, parent), k);
  }

  lemma NewDirSlots(spc: nat, nc: u16, parent: u16)
    requires spc > 0
    ensures var slots := Slots(NewDir(spc, nc, parent));
      && |slots| == spc * 16
      && slots[0] == DirSlot(DOT_NAME, nc) && slots[1] == DirSlot(DOTDOT_NAME, parent)
      && forall k :: 2 <= k < spc * 16 ==> slots[k][0] == 0
  {
    var slots := Slots(NewDir(spc, nc, parent));
    DirSectorSlots(nc, parent, 0);
    DirSectorSlots(nc, parent, 1);
    forall k | 2 <= k < spc * 16
      ensures slots[k][0] == 0
    {
      if k < 16 {
        DirSectorSlots(nc, parent, k);
      }
    }
  }

  lemma DotSlotsLive(nc: u16)
    ensures IsLive(DirSlot(DOT_NAME, nc)) && IsLive(DirSlot(DOTDOT_NAME, nc))
  {
    assert DirSlot(DOT_NAME, nc)[0] == DOT && DirSlot(DOTDOT_NAME, nc)[0] == DOT;
    assert DirSlot(DOT_NAME, nc)[11] == ATTR_DIR && DirSlot(DOTDOT_NAME, nc)[11] == ATTR_DIR;
  }

  /** A new directory shows "." and ".." and nothing else. */
  lemma NewDirEntries(spc: nat, nc: u16, parent: u16)
    requires spc > 0
    ensures LiveEntries(Slots(NewDir(spc, nc, parent))) == DotEntries(nc, parent)
    ensures Closed(Slots(NewDir(spc, nc, parent)))
  {
    var slots := Slots(NewDir(spc, nc, parent));
    NewDirSlots(spc, nc, parent);
    DotSlotsLive(nc);
    DotSlotsLive(parent);
    assert LiveEntries(slots[2..]) == [];
    assert slots[1..][1..] == slots[2..];
    assert LiveEntries(slots[1..]) == [EntryOf(slots[1])] + LiveEntries(slots[2..]);
  }

  // ----- the entry in the parent -----

  // The first free slot of a directory.
  ghost predicate FirstFree(slots: seq<Slot>, k: nat) {
    k < |slots| && IsFree(slots[k]) && forall i :: 0 <= i < k ==> !IsFree(slots[i])
  }

  lemma {:induction false} EndedHasNoEntries(slots: seq<Slot>)
    requires slots != [] ==> slots[0][0] == 0
    ensures LiveEntries(slots) == []
  {
  }

  /** Filling the first free slot inserts one entry, or none if the slot is not live. */
  lemma FilledSlots(slots: seq<Slot>, k: nat, s: Slot)
    requires Closed(slots) && FirstFree(slots, k) && s[0] != 0
    ensures Closed(slots[k := s])
    ensures var a, b := LiveEntries(slots[..k]), LiveEntries(slots[k + 1..]);
      && LiveEntries(slots) == a + b
      && LiveEntries(slots[k := s]) == a + (if IsLive(s) then [EntryOf(s)] else []) + b
  {
    var a, b := LiveEntries(slots[..k]), LiveEntries(slots[k + 1..]);
    var filled := slots[k := s];
    assert slots == slots[..k] + slots[k..] && filled == slots[..k] + filled[k..];
    LiveConcat(slots[..k], slots[k..]);
    LiveConcat(slots[..k], filled[k..]);
    assert slots[k..][1..] == slots[k + 1..] && filled[k..][1..] == slots[k + 1..];
    if slots[k][0] == 0 {
      EndedHasNoEntries(slots[k + 1..]);
    }
    assert a + ((if IsLive(s) then [EntryOf(s)] else []) + b) == a + (if IsLive(s) then [EntryOf(s)] else []) + b;
  }

  // es' is es with e inserted somewhere.
  ghost predicate Inserted(es: seq<Entry>, e: Entry, es': seq<Entry>) {
    exists n | 0 <= n <= |es| :: es' == es[..n] + [e] + es[n..]
  }

  /** An inserted entry answers its own, previously unknown, name and hides no other. */
  lemma InsertedLookup(es: seq<Entry>, e: Entry, es': seq<Entry>, key: seq<byte>)
    requires Inserted(es, e, es') && Lookup(es, Key(e.name)).None?
    ensures Lookup(es', key) == if key == Key(e.name) then Some(e) else Lookup(es, key)
  {
    hide Key;
    var n :| 0 <= n <= |es| && es' == es[..n] + [e] + es[n..];
    assert es == es[..n] + es[n..];
    LookupBetween(es[..n], e, es[n..], key);
    LookupBetween(es[..n], e, es[n..], Key(e.name));
  }

  lemma LookupBetween(a: seq<Entry>, e: Entry, b: seq<Entry>, key: seq<byte>)
    ensures Lookup(a + b, key) == if Lookup(a, key).Some? then Lookup(a, key) else Lookup(b, key)
    ensures Lookup(a + [e] + b, key)
         == if Lookup(a, key).Some? then Lookup(a, key) else if Key(e.name) == key then Some(e) else Lookup(b, key)
  {
    hide Key;
    assert a + [e] + b == a + ([e] + b);
    LookupConcat(a, b, key);
    LookupConcat(a, [e] + b, key);
    assert ([e] + b)[1..] == b;
  }

  /**
   A new entry of that name, put into the first free slot, leaves what the name finds: there
   is nothing to find yet, or it lies before that slot, or the new slot reads as deleted.
   */
  ghost predicate Spared(slots: seq<Slot>, name: Name11) {
    || name[0] == 0xE5
    || Lookup(LiveEntries(slots), Key(name)).None?
    || forall k: nat :: FirstFree(slots, k) ==> Lookup(LiveEntries(slots[..k]), Key(name)).Some?
  }

  ghost predicate SparedIn(v: Volume, cat: Catalog, d: u16, name: Name11) {
    Spared(Slots(DirSecs(v, cat, d)), name)
  }

  // What the name finds once the entry is in.
  ghost function FoundAfter(v: Volume, cat: Catalog, d: u16, name: Name11, e: Entry): Option<Entry> {
    if Lookup(Entries(v, cat, d), Key(name)).Some? && SparedIn(v, cat, d, name)
    then Lookup(Entries(v, cat, d), Key(name)) else Some(e)
  }

  /** Exactly when it is spared does a name find after the insertion what it found before. */
  lemma FilledLookup(slots: seq<Slot>, k: nat, s: Slot, key: seq<byte>)
    requires Closed(slots) && FirstFree(slots, k) && IsLive(s)
    ensures var found := Lookup(LiveEntries(slots), key);
      Lookup(LiveEntries(slots[k := s]), key)
        == if key != Key(s[..11]) || (found.Some? && Spared(slots, s[..11])) then found else Some(EntryOf(s))
  {
    hide Key, LiveEntries;
    FilledSlots(slots, k, s);
    LookupBetween(LiveEntries(slots[..k]), EntryOf(s), LiveEntries(slots[k + 1..]), key);
    assert s[..11][0] == s[0];
    assert forall m: nat :: FirstFree(slots, m) ==> m == k;
  }

  // w is v with sector j of directory d replaced; nothing else readable has moved.
  ghost predicate DirWritten(v: Volume, cat: Catalog, w: Volume, d: u16, j: nat, sec: Sector) {
    && w.fat == v.fat && |w.data| == |v.data| && Shaped(w)
    && j < |DirSecs(v, cat, d)|
    && DirSecs(w, cat, d) == DirSecs(v, cat, d)[j := sec]
    && (d != 0 ==> w.root == v.root)
    && (forall c <- cat.chains | c != d :: Secs(w.data, cat.chains[c]) == Secs(v.data, cat.chains[c]))
    && (forall c: u16 | Unchained(cat, c) :: Cluster(w.data, c) == Cluster(v.data, c))
  }

  lemma RootWritten(v: Volume, cat: Catalog, j: nat, sec: Sector)
    requires WellFormedVolume(v, cat) && j < |v.root|
    ensures DirWritten(v, cat, SetRoot(v, j, sec), 0, j, sec)
  {
  }

  // b is a with sector i of cluster c replaced.
  ghost predicate SectorReplaced(a: seq<seq<Sector>>, b: seq<seq<Sector>>, c: u16, i: nat, sec: Sector) {
    DataOnly(a, b, c) && 2 <= c < |a| + 2 && i < |a[c - 2]| && b[c - 2] == a[c - 2][i := sec]
  }

  lemma UpdateInConcat<T>(x: seq<T>, y: seq<T>, k: nat, t: T)
    requires k < |x + y|
    ensures (x + y)[k := t] == if k < |x| then x[k := t] + y else x + y[k - |x| := t]
  {
  }

  ghost function StepBack(m: nat, n: nat): (r: nat)
    requires m > 0
    ensures r == (m - 1) * n && m * n == n + r
  {
    (m - 1) * n
  }

  lemma {:induction false} SecsUpdate(a: seq<seq<Sector>>, b: seq<seq<Sector>>, cs: seq<u16>, n: nat, m: nat, i: nat,
                                      sec: Sector)
    requires m < |cs| && i < n
    requires forall k :: 0 <= k < |cs| ==> |Cluster(a, cs[k])| == n
    requires forall k :: 0 <= k < |cs| && k != m ==> cs[k] != cs[m]
    requires SectorReplaced(a, b, cs[m], i, sec)
    ensures m * n + i < |Secs(a, cs)| && Secs(b, cs) == Secs(a, cs)[m * n + i := sec]
  {
    var rest := cs[1..];
    if m == 0 {
      SecsFrame(a, b, rest, cs[m]);
      UpdateInConcat(Cluster(a, cs[0]), Secs(a, rest), i, sec);
    } else {
      assert rest[m - 1] == cs[m] && cs[0] != cs[m];
      SecsUpdate(a, b, rest, n, m - 1, i, sec);
      var at := StepBack(m, n) + i;
      UpdateInConcat(Cluster(a, cs[0]), Secs(a, rest), n + at, sec);
    }
  }

  lemma ChainWritten(v: Volume, cat: Catalog, d: u16, m: nat, i: nat, sec: Sector)
    requires WellFormedVolume(v, cat) && d in cat.dirs && m < |cat.chains[d]|
    requires |v.data| > 0 && i < |v.data[0]|
    ensures var c := cat.chains[d][m];
      Clus(v, c) && |v.data[c - 2]| == |v.data[0]|
      && DirWritten(v, cat, SetData(v, c, i, sec), d, m * |v.data[0]| + i, sec)
  {
    hide Secs, DirOk;
    var cs := cat.chains[d];
    var c := cs[m];
    assert IsChain(v, cs) && c in cs;
    var w := SetData(v, c, i, sec);
    assert DataOnly(v.data, w.data, c);
    assert EvenClusters(w.data) by { assert forall k :: 0 <= k < |v.data| ==> |w.data[k]| == |v.data[k]|; }
    forall k | 0 <= k < |cs| && k != m
      ensures cs[k] != c
    {
      ChainIsAcyclic(v, cs, if k < m then k else m, if k < m then m else k);
    }
    SecsUpdate(v.data, w.data, cs, |v.data[0]|, m, i, sec);
    assert d != 0;
    OtherChainsRead(v, w, cat, d, c);
  }

  lemma OtherChainsRead(v: Volume, w: Volume, cat: Catalog, d: u16, c: u16)
    requires Shaped(v) && ChainsOk(v, cat) && d in cat.chains && c in cat.chains[d]
    requires DataOnly(v.data, w.data, c)
    ensures forall k <- cat.chains | k != d :: Secs(w.data, cat.chains[k]) == Secs(v.data, cat.chains[k])
    ensures forall x: u16 | Unchained(cat, x) :: Cluster(w.data, x) == Cluster(v.data, x)
  {
    forall k <- cat.chains | k != d
      ensures Secs(w.data, cat.chains[k]) == Secs(v.data, cat.chains[k])
    {
      assert Apart(cat.chains[d], cat.chains[k]);
      SecsFrame(v.data, w.data, cat.chains[k], c);
    }
    forall x: u16 | Unchained(cat, x)
      ensures Cluster(w.data, x) == Cluster(v.data, x)
    {
      assert x !in cat.chains[d];
    }
  }

  // ----- the completed mkdir -----

  function WithDir(cat: Catalog, d: u16, name: Name11, nc: u16): Catalog {
    Catalog(cat.chains[nc := [nc]], cat.dirs + {nc}, cat.home[nc := (d, Key(name))])
  }

  // A one-cluster chain that nobody refers to yet.
  ghost predicate LoneCluster(v: Volume, cat: Catalog, nc: u16) {
    && WellFormedVolume(v, cat)
    && Clus(v, nc) && Unchained(cat, nc) && v.fat[0][nc] == 0xFFFF
  }

  // Slot s goes to slot i of sector j, the first free slot of directory d.
  ghost predicate SlotWritten(v: Volume, cat: Catalog, w: Volume, d: u16, j: nat, i: nat, s: Slot) {
    && i < 16 && j < |DirSecs(v, cat, d)|
    && FirstFree(Slots(DirSecs(v, cat, d)), j * 16 + i)
    && DirWritten(v, cat, w, d, j, PutSlot(DirSecs(v, cat, d)[j], i, s))
  }

  lemma LoneIsNew(v: Volume, cat: Catalog, nc: u16)
    requires LoneCluster(v, cat, nc)
    ensures nc !in cat.chains && !IsDirOf(cat, nc)
  {
    forall c <- cat.chains
      ensures c in cat.chains[c] && c != 0
    {
      assert IsChain(v, cat.chains[c]);
    }
  }

  lemma InsertChains(v: Volume, cat: Catalog, d: u16, name: Name11, nc: u16, w: Volume)
    requires LoneCluster(v, cat, nc)
    requires w.fat == v.fat && |w.data| == |v.data| && Shaped(w)
    ensures ChainsOk(w, WithDir(cat, d, name, nc)) && ChainsOk(w, cat)
  {
    LoneIsNew(v, cat, nc);
    forall c <- cat.chains
      ensures IsChain(w, cat.chains[c]) && Apart(cat.chains[c], [nc]) && Apart([nc], cat.chains[c])
    {
      ChainFrame(v, w, cat.chains[c]);
    }
    assert IsChain(w, [nc]);
  }

  lemma InsertFatOk(v: Volume, w: Volume)
    requires Shaped(v) && Shaped(w) && FatOk(v) && w.fat == v.fat && |w.data| == |v.data|
    ensures FatOk(w)
  {
    forall c | 2 <= c < |w.fat[0]| && w.fat[0][c] == 0
      ensures Clus(w, c)
    {
      assert Clus(v, c);
    }
  }

  // The listing of the parent gains the new entry, unless its first byte reads as "deleted".
  lemma InsertListing(v: Volume, cat: Catalog, w: Volume, d: u16, j: nat, i: nat, s: Slot)
    requires WellFormedVolume(v, cat) && IsDirOf(cat, d) && SlotWritten(v, cat, w, d, j, i, s) && s[0] != 0
    ensures Closed(Slots(DirSecs(w, cat, d)))
    ensures if IsLive(s) then Inserted(Entries(v, cat, d), EntryOf(s), Entries(w, cat, d))
      else Entries(w, cat, d) == Entries(v, cat, d)
  {
    hide Slots, LiveEntries, PutSlot, ChainsOk, FatOk;
    assert DirOk(v, cat, d);
    SlotsUpdate(DirSecs(v, cat, d), j, i, s);
    FilledEntries(Slots(DirSecs(v, cat, d)), j * 16 + i, s);
  }

  lemma FilledEntries(slots: seq<Slot>, k: nat, s: Slot)
    requires Closed(slots) && FirstFree(slots, k) && s[0] != 0
    ensures Closed(slots[k := s])
    ensures if IsLive(s) then Inserted(LiveEntries(slots), EntryOf(s), LiveEntries(slots[k := s]))
      else LiveEntries(slots[k := s]) == LiveEntries(slots)
  {
    FilledSlots(slots, k, s);
    var a, b := LiveEntries(slots[..k]), LiveEntries(slots[k + 1..]);
    assert (a + b)[..|a|] == a && (a + b)[|a|..] == b;
    assert a + [] + b == a + b;
  }

  function DirEntry(name: Name11, nc: u16): Entry {
    Entry(name, ATTR_DIR, nc, 0)
  }

  /**
   The tree gained one directory nc, named `name` in directory d and holding "." and
   ".." only; every other directory and every file reads as before.
   */
  ghost predicate Made(v: Volume, cat: Catalog, w: Volume, cat': Catalog, d: u16, name: Name11, nc: u16) {
    && nc !in cat.dirs && nc >= 2 && cat'.dirs == cat.dirs + {nc}
    && (forall d' | IsDirOf(cat, d') && d' != d :: Entries(w, cat', d') == Entries(v, cat, d'))
    && Inserted(Entries(v, cat, d), DirEntry(name, nc), Entries(w, cat', d))
    && Entries(w, cat', nc) == DotEntries(nc, d)
    && KeepsFiles(v, cat, w, cat')
  }

  // Everything `InsertStep` assumes.
  ghost predicate InsertStepReady(v: Volume, cat: Catalog, w: Volume, d: u16, j: nat, i: nat, name: Name11, nc: u16) {
    && LoneCluster(v, cat, nc) && IsDirOf(cat, d)
    && name[0] != 0
    && SlotWritten(v, cat, w, d, j, i, DirSlot(name, nc))
  }

  ghost predicate HoldsNewDir(v: Volume, d: u16, nc: u16) {
    |Cluster(v.data, nc)| > 0 && Cluster(v.data, nc) == NewDir(|Cluster(v.data, nc)|, nc, d)
  }

  lemma InsertOthers(v: Volume, cat: Catalog, w: Volume, d: u16, j: nat, i: nat, name: Name11, nc: u16, d': u16)
    requires InsertStepReady(v, cat, w, d, j, i, name, nc) && IsDirOf(cat, d')
    ensures DirSecs(w, WithDir(cat, d, name, nc), d') == DirSecs(w, cat, d')
    ensures d' != d ==> DirSecs(w, cat, d') == DirSecs(v, cat, d')
  {
    LoneIsNew(v, cat, nc);
  }

  lemma InsertNew(v: Volume, cat: Catalog, w: Volume, d: u16, j: nat, i: nat, name: Name11, nc: u16)
    requires InsertStepReady(v, cat, w, d, j, i, name, nc) && HoldsNewDir(v, d, nc)
    ensures Entries(w, WithDir(cat, d, name, nc), nc) == DotEntries(nc, d)
    ensures DirOk(w, WithDir(cat, d, name, nc), nc)
  {
    hide NewDir, DirSlot, LiveEntries, Slots, Secs, Key, FirstFree, PutSlot;
    var cat' := WithDir(cat, d, name, nc);
    NewDirSecs(v, cat, w, d, nc);
    NewDirEntries(|Cluster(v.data, nc)|, nc, d);
    DotKeys();
    forall e <- DotEntries(nc, d)
      ensures EntryOk(w, cat', e) && AtHome(cat', nc, e)
    {
      assert !PlainKey(Key(e.name)) && HasDir(e.attr) && (e.clus == nc || e.clus == d);
    }
  }

  lemma NewDirSecs(v: Volume, cat: Catalog, w: Volume, d: u16, nc: u16)
    requires LoneCluster(v, cat, nc) && Cluster(w.data, nc) == Cluster(v.data, nc)
    ensures forall name :: DirSecs(w, WithDir(cat, d, name, nc), nc) == Cluster(v.data, nc)
  {
    assert Secs(w.data, [nc]) == Cluster(w.data, nc) + Secs(w.data, []);
  }

  lemma {:induction false} InsertedMembers(es: seq<Entry>, e: Entry, es': seq<Entry>)
    requires Inserted(es, e, es')
    ensures forall x <- es' :: x == e || x in es
  {
  }

  lemma InsertFiles(v: Volume, cat: Catalog, w: Volume, d: u16, j: nat, i: nat, name: Name11, nc: u16)
    requires InsertStepReady(v, cat, w, d, j, i, name, nc)
    ensures KeepsFiles(v, cat, w, WithDir(cat, d, name, nc)) && KeepsFiles(v, cat, w, cat)
  {
    LoneIsNew(v, cat, nc);
    assert forall c <- cat.chains | c !in cat.dirs :: c == d ==> IsChain(v, cat.chains[c]);
  }

  // An entry that was sound stays sound in the larger catalog.
  lemma InsertEntryOk(v: Volume, cat: Catalog, w: Volume, d: u16, j: nat, i: nat, name: Name11, nc: u16, d': u16,
                      e: Entry)
    requires InsertStepReady(v, cat, w, d, j, i, name, nc)
    requires EntryOk(v, cat, e) && AtHome(cat, d', e)
    ensures EntryOk(w, WithDir(cat, d, name, nc), e) && AtHome(WithDir(cat, d, name, nc), d', e)
    ensures EntryOk(w, cat, e)
  {
    LoneIsNew(v, cat, nc);
    InsertFiles(v, cat, w, d, j, i, name, nc);
  }

  lemma InsertEntries(v: Volume, cat: Catalog, w: Volume, d: u16, j: nat, i: nat, name: Name11, nc: u16, d': u16)
    requires InsertStepReady(v, cat, w, d, j, i, name, nc) && IsDirOf(cat, d') && name[0] != 0xE5
    ensures Closed(Slots(DirSecs(w, WithDir(cat, d, name, nc), d')))
    ensures d' != d ==> Entries(w, WithDir(cat, d, name, nc), d') == Entries(v, cat, d')
    ensures d' == d ==> Inserted(Entries(v, cat, d), DirEntry(name, nc), Entries(w, WithDir(cat, d, name, nc), d))
  {
    hide DirSlot, Slots, LiveEntries, Inserted;
    InsertOthers(v, cat, w, d, j, i, name, nc, d');
    assert DirOk(v, cat, d');
    if d' == d {
      DirSlotLive(name, nc);
      InsertListing(v, cat, w, d, j, i, DirSlot(name, nc));
    }
  }

  lemma InsertDirOk(v: Volume, cat: Catalog, w: Volume, d: u16, j: nat, i: nat, name: Name11, nc: u16, d': u16)
    requires InsertStepReady(v, cat, w, d, j, i, name, nc) && IsDirOf(cat, d') && name[0] != 0xE5
    ensures DirOk(w, WithDir(cat, d, name, nc), d')
  {
    var cat' := WithDir(cat, d, name, nc);
    InsertEntries(v, cat, w, d, j, i, name, nc, d');
    if d' == d {
      InsertedMembers(Entries(v, cat, d), DirEntry(name, nc), Entries(w, cat', d));
    }
    assert DirOk(v, cat, d');
    forall e <- Entries(w, cat', d')
      ensures EntryOk(w, cat', e) && AtHome(cat', d', e)
    {
      if e in Entries(v, cat, d') {
        InsertEntryOk(v, cat, w, d, j, i, name, nc, d', e);
      }
    }
  }

  /** Writing the entry completes the mkdir and re-establishes the whole invariant. */
  lemma InsertStep(v: Volume, cat: Catalog, w: Volume, d: u16, j: nat, i: nat, name: Name11, nc: u16)
    requires InsertStepReady(v, cat, w, d, j, i, name, nc) && HoldsNewDir(v, d, nc) && name[0] != 0xE5
    ensures WellFormedVolume(w, WithDir(cat, d, name, nc))
    ensures Made(v, cat, w, WithDir(cat, d, name, nc), d, name, nc)
  {
    var cat' := WithDir(cat, d, name, nc);
    LoneIsNew(v, cat, nc);
    InsertChains(v, cat, d, name, nc, w);
    InsertFatOk(v, w);
    InsertNew(v, cat, w, d, j, i, name, nc);
    InsertFiles(v, cat, w, d, j, i, name, nc);
    forall d' | IsDirOf(cat, d')
      ensures DirOk(w, cat', d')
      ensures d' != d ==> Entries(w, cat', d') == Entries(v, cat, d')
      ensures d' == d ==> Inserted(Entries(v, cat, d), DirEntry(name, nc), Entries(w, cat', d))
    {
      InsertDirOk(v, cat, w, d, j, i, name, nc, d');
      InsertEntries(v, cat, w, d, j, i, name, nc, d');
    }
  }

  // Lookups in the parent, once the entry is in.
  lemma InsertLookups(v: Volume, cat: Catalog, w: Volume, d: u16, j: nat, i: nat, name: Name11, nc: u16, key: seq<byte>)
    requires InsertStepReady(v, cat, w, d, j, i, name, nc) && name[0] != 0xE5
    ensures Lookup(Entries(w, WithDir(cat, d, name, nc), d), key) ==
      if key == Key(name) then FoundAfter(v, cat, d, name, DirEntry(name, nc)) else Lookup(Entries(v, cat, d), key)
  {
    hide Slots, LiveEntries, PutSlot, ChainsOk, FatOk, Key, Spared, FirstFree;
    var slots, s := Slots(DirSecs(v, cat, d)), DirSlot(name, nc);
    assert DirOk(v, cat, d);
    InsertOthers(v, cat, w, d, j, i, name, nc, d);
    DirSlotLive(name, nc);
    DirSlotName(name, nc);
    SlotsUpdate(DirSecs(v, cat, d), j, i, s);
    FilledLookup(slots, j * 16 + i, s, key);
  }

  lemma DirSlotName(name: Name11, nc: u16)
    ensures DirSlot(name, nc)[..11] == name
  {
  }

  lemma InsertFinds(v: Volume, cat: Catalog, w: Volume, d: u16, j: nat, i: nat, name: Name11, nc: u16, d': u16)
    requires InsertStepReady(v, cat, w, d, j, i, name, nc) && name[0] != 0xE5 && SparedIn(v, cat, d, name)
    requires IsDirOf(cat, d')
    ensures Finds(Entries(v, cat, d'), Entries(w, WithDir(cat, d, name, nc), d'))
  {
    hide InsertStepReady, SparedIn, Entries, Key, WithDir;
    InsertEntries(v, cat, w, d, j, i, name, nc, d');
    if d' == d {
      forall key | Lookup(Entries(v, cat, d), key).Some?
        ensures Lookup(Entries(w, WithDir(cat, d, name, nc), d), key) == Lookup(Entries(v, cat, d), key)
      {
        InsertLookups(v, cat, w, d, j, i, name, nc, key);
      }
    }
  }

  /** ... and loses nothing that could be found, if the name is spared. */
  lemma InsertKeeps(v: Volume, cat: Catalog, w: Volume, d: u16, j: nat, i: nat, name: Name11, nc: u16)
    requires InsertStepReady(v, cat, w, d, j, i, name, nc) && name[0] != 0xE5 && SparedIn(v, cat, d, name)
    ensures Keeps(v, cat, w, WithDir(cat, d, name, nc))
  {
    hide SparedIn, DirOk, FatOk, Finds, Entries;
    LoneIsNew(v, cat, nc);
    InsertChains(v, cat, d, name, nc, w);
    InsertFiles(v, cat, w, d, j, i, name, nc);
    forall d' | IsDirOf(cat, d')
      ensures Finds(Entries(v, cat, d'), Entries(w, WithDir(cat, d, name, nc), d'))
    {
      InsertFinds(v, cat, w, d, j, i, name, nc, d');
    }
  }

  /**
   A name whose first byte is 0xE5 is written as a deleted slot: no directory appears,
   though everything else is as it was.
   */
  lemma DeadInsertStep(v: Volume, cat: Catalog, w: Volume, d: u16, j: nat, i: nat, name: Name11, nc: u16)
    requires InsertStepReady(v, cat, w, d, j, i, name, nc) && name[0] == 0xE5
    ensures WellFormedVolume(w, cat) && Keeps(v, cat, w, cat)
    ensures forall d' | IsDirOf(cat, d') :: Entries(w, cat, d') == Entries(v, cat, d')
  {
    InsertChains(v, cat, d, name, nc, w);
    InsertFatOk(v, w);
    InsertFiles(v, cat, w, d, j, i, name, nc);
    forall d' | IsDirOf(cat, d')
      ensures Entries(w, cat, d') == Entries(v, cat, d') && DirOk(w, cat, d')
    {
      assert DirOk(v, cat, d');
      InsertOthers(v, cat, w, d, j, i, name, nc, d');
      if d' == d {
        DirSlotLive(name, nc);
        InsertListing(v, cat, w, d, j, i, DirSlot(name, nc));
      }
      forall e <- Entries(w, cat, d')
        ensures EntryOk(w, cat, e) && AtHome(cat, d', e)
      {
        InsertEntryOk(v, cat, w, d, j, i, name, nc, d', e);
      }
    }
  }
}
