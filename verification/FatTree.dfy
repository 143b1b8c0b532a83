/**
 What a FAT16 volume means: cluster chains, the flat list of entries a directory
 shows, and path lookup as a left fold of directory lookup over the components.
 */
module FatTree {
  import opened Bytes
  import opened Names83
  import opened FatVolume

  datatype Option<+T> = None | Some(value: T)

  // ----- cluster chains -----

  predicate IsEoc(x: u16) {
    x >= 0xFFF8
  }

  ghost predicate Shaped(v: Volume) {
    && |v.fat| > 0 && |v.fat[0]| <= 0x1_0000
    && (forall i :: 0 <= i < |v.fat| ==> |v.fat[i]| == |v.fat[0]|)
    && |v.data| + 2 <= 0xFFF7
    && EvenClusters(v.data)
  }

  ghost predicate EvenClusters(data: seq<seq<Sector>>) {
    forall k :: 0 <= k < |data| ==> |data[k]| == |data[0]| && |data[k]| > 0
  }

  // A data cluster the medium holds and the FAT describes.
  predicate Clus(v: Volume, c: nat) {
    2 <= c < |v.data| + 2 && |v.fat| > 0 && c < |v.fat[0]|
  }

  // The link the driver follows: copy 0, or copy 1 where copy 0 reads zero.
  function Next(v: Volume, c: nat): u16
    requires |v.fat| > 0 && c < |v.fat[0]|
    requires |v.fat| > 1 ==> c < |v.fat[1]|
  {
    if v.fat[0][c] == 0 && |v.fat| > 1 then v.fat[1][c] else v.fat[0][c]
  }

  ghost predicate IsChain(v: Volume, cs: seq<u16>)
    requires Shaped(v)
  {
    && |cs| > 0
    && (forall i :: 0 <= i < |cs| ==> Clus(v, cs[i]))
    && (forall i :: 0 <= i < |cs| - 1 ==> Next(v, cs[i]) == cs[i + 1])
    && IsEoc(Next(v, cs[|cs| - 1]))
  }

  /** A cluster is a chain by itself exactly if its link is one of the eight end marks. */
  lemma EndMarks(v: Volume, c: u16)
    requires Shaped(v) && Clus(v, c)
    ensures IsChain(v, [c]) <==> Next(v, c) in {0xFFF8, 0xFFF9, 0xFFFA, 0xFFFB, 0xFFFC, 0xFFFD, 0xFFFE, 0xFFFF}
  {
  }

  /** Any chain that reaches its end mark visits no cluster twice. */
  lemma {:induction false} ChainIsAcyclic(v: Volume, cs: seq<u16>, i: nat, j: nat)
    requires Shaped(v) && IsChain(v, cs) && i < j < |cs|
    ensures cs[i] != cs[j]
    decreases |cs| - j
  {
    assert Clus(v, cs[i + 1]);
    if cs[i] == cs[j] && j + 1 < |cs| {
      ChainIsAcyclic(v, cs, i + 1, j + 1);
    }
  }

  /** The first cluster determines its chain. */
  lemma {:induction false} ChainIsUnique(v: Volume, a: seq<u16>, b: seq<u16>)
    requires Shaped(v) && IsChain(v, a) && IsChain(v, b) && a[0] == b[0]
    ensures a == b
    decreases |a|
  {
    assert |a| > 1 ==> Clus(v, a[1]);
    assert |b| > 1 ==> Clus(v, b[1]);
    if |a| > 1 && |b| > 1 {
      ChainIsUnique(v, a[1..], b[1..]);
      assert a == [a[0]] + a[1..] && b == [b[0]] + b[1..];
    }
  }

  // The sectors of a run of clusters, in order.
  function Secs(data: seq<seq<Sector>>, cs: seq<u16>): seq<Sector> {
    if cs == [] then [] else Cluster(data, cs[0]) + Secs(data, cs[1..])
  }

  function Cluster(data: seq<seq<Sector>>, c: u16): seq<Sector> {
    if 2 <= c < |data| + 2 then data[c - 2] else []
  }

  lemma {:induction false} SecsConcat(data: seq<seq<Sector>>, a: seq<u16>, b: seq<u16>)
    ensures Secs(data, a + b) == Secs(data, a) + Secs(data, b)
  {
    if a == [] {
      assert a + b == b;
    } else {
      assert (a + b)[0] == a[0] && (a + b)[1..] == a[1..] + b;
      SecsConcat(data, a[1..], b);
      assert Secs(data, a) == Cluster(data, a[0]) + Secs(data, a[1..]);
    }
  }

  // ----- directories -----

  type Slot = s: seq<byte> | |s| == 32 witness seq(32, _ => 0)

  const ATTR_DIR: byte := 0x10

  datatype Entry = Entry(name: Name11, attr: byte, clus: u16, size: u32)

  function SlotOf(s: Sector, i: nat): Slot
    requires i < 16
  {
    s[i * 32..i * 32 + 32]
  }

  function Slots(secs: seq<Sector>): (r: seq<Slot>)
    ensures |r| == |secs| * 16
  {
    seq(|secs| * 16, k requires 0 <= k < |secs| * 16 => SlotOf(secs[k / 16], k % 16))
  }

  function EntryOf(s: Slot): Entry {
    Entry(s[..11], s[11], Rd16(s, 26), Rd32(s, 28))
  }

  // The slot has the entry's fields in their places, little-endian; its other bytes do not matter.
  predicate HoldsEntry(s: Slot, e: Entry) {
    s[..11] == e.name && s[11] == e.attr && s[26..28] == ToBytes(e.clus, 2) && s[28..] == ToBytes(e.size, 4)
  }

  /** A slot is read as an entry exactly when it holds it. */
  lemma SlotLayout(s: Slot, e: Entry)
    ensures EntryOf(s) == e <==> HoldsEntry(s, e)
  {
    hide ToBytes, FromBytes, Rd16, Rd32;
    Pow256Values();
    SmallWords(s, 26);
    SmallWords(s, 28);
    ToFromBytes(s[26..28]);
    ToFromBytes(s[28..]);
    FromToBytes(e.clus, 2);
    FromToBytes(e.size, 4);
    assert s[28..] == s[28..32];
  }

  predicate HasDir(attr: byte) { attr / 0x10 % 2 == 1 }

  predicate HasVol(attr: byte) { attr / 0x08 % 2 == 1 }

  predicate IsFree(s: Slot) { s[0] == 0 || s[0] == 0xE5 }

  // In use, and neither a long-name slot nor the volume label.
  predicate IsLive(s: Slot) { !IsFree(s) && s[11] != 0x0F && !HasVol(s[11]) }

  /** The flat filter a directory scan must compute: the live slots before the first 0x00. */
  function LiveEntries(slots: seq<Slot>): seq<Entry> {
    if slots == [] || slots[0][0] == 0 then []
    else (if IsLive(slots[0]) then [EntryOf(slots[0])] else []) + LiveEntries(slots[1..])
  }

  /** In the attribute byte, bit 3 marks the volume label and bit 4 a directory. */
  lemma AttrBits(attr: byte, low: nat, vol: nat, dir: nat, high: nat)
    requires low < 8 && vol < 2 && dir < 2 && high < 8 && attr == low + 8 * vol + 16 * dir + 32 * high
    ensures HasVol(attr) <==> vol == 1
    ensures HasDir(attr) <==> dir == 1
  {
  }

  // A live slot ahead of the end mark, and its entry.
  ghost predicate ShownAt(slots: seq<Slot>, i: nat, e: Entry) {
    i < |slots| && (forall j :: 0 <= j <= i ==> slots[j][0] != 0) && IsLive(slots[i]) && HoldsEntry(slots[i], e)
  }

  /** A directory shows exactly the entries its live slots hold. */
  lemma {:induction false} ListedExactly(slots: seq<Slot>, e: Entry)
    ensures e in LiveEntries(slots) <==> exists i: nat :: ShownAt(slots, i, e)
  {
    hide HoldsEntry, EntryOf, IsLive;
    if slots != [] && slots[0][0] != 0 {
      ListedExactly(slots[1..], e);
      SlotLayout(slots[0], e);
      if i: nat :| ShownAt(slots[1..], i, e) {
        assert forall j :: 0 <= j <= i ==> slots[1..][j] == slots[j + 1];
        assert forall j :: 0 <= j <= i + 1 && j > 0 ==> slots[j] == slots[1..][j - 1];
        assert ShownAt(slots, i + 1, e);
      }
      if i: nat :| ShownAt(slots, i, e) {
        assert forall j :: 0 <= j < i ==> slots[1..][j] == slots[j + 1];
        assert i > 0 ==> ShownAt(slots[1..], i - 1, e);
      }
      if IsLive(slots[0]) && EntryOf(slots[0]) == e {
        assert ShownAt(slots, 0, e);
      }
    }
  }

  function Lookup(es: seq<Entry>, key: seq<byte>): Option<Entry> {
    if es == [] then None
    else if Key(es[0].name) == key then Some(es[0])
    else Lookup(es[1..], key)
  }

  // ----- what is on the volume -----

  /**
   The structures in use: every live chain by its first cluster, which of them are
   directories, and for each directory the directory and name that lead to it.
   Directory 0 is the root region.
   */
  datatype Catalog = Catalog(chains: map<u16, seq<u16>>, dirs: set<u16>, home: map<u16, (u16, seq<byte>)>)

  function DirSecs(v: Volume, cat: Catalog, d: u16): seq<Sector> {
    if d == 0 then v.root else if d in cat.chains then Secs(v.data, cat.chains[d]) else []
  }

  function Entries(v: Volume, cat: Catalog, d: u16): seq<Entry> {
    LiveEntries(Slots(DirSecs(v, cat, d)))
  }

  // ----- path lookup -----

  datatype Spot = AtRoot | Found(e: Entry) | Fail(rc: int)

  function SubEntries(v: Volume, cat: Catalog, c: u16): seq<Entry> {
    if c in cat.dirs then Entries(v, cat, c) else []
  }

  function Look(v: Volume, cat: Catalog, spot: Spot, comp: seq<byte>): Spot {
    if spot.Fail? then spot
    else if spot.Found? && !HasDir(spot.e.attr) then Fail(-5)
    else if |comp| >= 64 then Fail(-2)
    else if Encode(comp).Bad? then Fail(-3)
    else
      var es := if spot.AtRoot? then Entries(v, cat, 0) else SubEntries(v, cat, spot.e.clus);
      match Lookup(es, Key(Encode(comp).name))
      case None => Fail(1)
      case Some(e) => Found(e)
  }

  function Walk(v: Volume, cat: Catalog, comps: seq<seq<byte>>): Spot {
    if comps == [] then AtRoot
    else Look(v, cat, Walk(v, cat, comps[..|comps| - 1]), comps[|comps| - 1])
  }

  // The components of a path text, which ends at its first NUL.
  function Components(s: seq<byte>): seq<seq<byte>> {
    if s == [] || s[0] == 0 then []
    else if IsSep(s[0]) then Components(s[1..])
    else
      var e := NameEnd(s, 0);
      [s[..e]] + Components(s[e..])
  }

  function Resolve(v: Volume, cat: Catalog, path: seq<byte>): Spot {
    Walk(v, cat, Components(path))
  }

  // ----- the volume invariant -----

  // After the first 0x00 slot of a directory every slot is 0x00.
  ghost predicate Closed(slots: seq<Slot>) {
    forall i, j :: 0 <= i < j < |slots| && slots[i][0] == 0 ==> slots[j][0] == 0
  }

  ghost predicate EntryOk(v: Volume, cat: Catalog, e: Entry) {
    if HasDir(e.attr) then e.clus < 2 || e.clus in cat.dirs else e.size == 0 || FileOk(v, cat, e)
  }

  ghost predicate FileOk(v: Volume, cat: Catalog, e: Entry) {
    e.clus in cat.chains && e.clus !in cat.dirs && e.size <= |Secs(v.data, cat.chains[e.clus])| * 512
  }

  ghost predicate IsDirOf(cat: Catalog, d: u16) {
    d == 0 || d in cat.dirs
  }

  const DOT_KEY: seq<byte> := [DOT]
  const DOTDOT_KEY: seq<byte> := [DOT, DOT]

  // The 11 bytes of "." and "..", which the encoder does not produce.
  const DOT_NAME: Name11 := Pad(DOT_KEY, 8) + Pad([], 3)
  const DOTDOT_NAME: Name11 := Pad(DOTDOT_KEY, 8) + Pad([], 3)

  lemma DotKeys()
    ensures Key(DOT_NAME) == DOT_KEY && Key(DOTDOT_NAME) == DOTDOT_KEY
  {
    DecodePadded(DOT_KEY, []);
    DecodePadded(DOTDOT_KEY, []);
    KeyOfComponent(DOT_KEY);
    KeyOfComponent(DOTDOT_KEY);
    assert Upper(DOT_KEY) == DOT_KEY && Upper(DOTDOT_KEY) == DOTDOT_KEY;
  }

  predicate PlainKey(key: seq<byte>) {
    key != DOT_KEY && key != DOTDOT_KEY
  }

  // Apart from the dot entries, exactly one directory and one name lead to a directory.
  ghost predicate AtHome(cat: Catalog, d: u16, e: Entry) {
    HasDir(e.attr) && PlainKey(Key(e.name)) && e.clus in cat.dirs ==>
      e.clus in cat.home && cat.home[e.clus] == (d, Key(e.name))
  }

  ghost predicate DirOk(v: Volume, cat: Catalog, d: u16) {
    && Closed(Slots(DirSecs(v, cat, d)))
    && forall e <- Entries(v, cat, d) :: EntryOk(v, cat, e) && AtHome(cat, d, e)
  }

  ghost predicate ChainsOk(v: Volume, cat: Catalog)
    requires Shaped(v)
  {
    && cat.dirs <= cat.chains.Keys
    && (forall c <- cat.chains :: IsChain(v, cat.chains[c]) && cat.chains[c][0] == c)
    && (forall c <- cat.chains, d <- cat.chains :: c != d ==> Apart(cat.chains[c], cat.chains[d]))
  }

  ghost predicate Apart(a: seq<u16>, b: seq<u16>) {
    forall x <- a :: x !in b
  }

  // Copy 1 must not resurrect what copy 0 calls free, and free cells name real clusters.
  ghost predicate FatOk(v: Volume)
    requires Shaped(v)
  {
    && (|v.fat| > 1 ==> forall c :: 0 <= c < |v.fat[0]| && v.fat[0][c] == 0 ==> v.fat[1][c] == 0)
    && (forall c :: 2 <= c < |v.fat[0]| && v.fat[0][c] == 0 ==> Clus(v, c))
  }

  ghost predicate Mirrored(v: Volume) {
    Shaped(v) && FatOk(v)
  }

  ghost predicate WellFormedVolume(v: Volume, cat: Catalog) {
    && Shaped(v)
    && FatOk(v)
    && ChainsOk(v, cat)
    && (forall d | IsDirOf(cat, d) :: DirOk(v, cat, d))
  }

  // ----- what a write must not lose -----

  ghost predicate Finds(es: seq<Entry>, es': seq<Entry>) {
    forall key :: Lookup(es, key).Some? ==> Lookup(es', key) == Lookup(es, key)
  }

  ghost predicate KeepsChains(cat: Catalog, v': Volume, cat': Catalog) {
    && Shaped(v')
    && cat.dirs <= cat'.dirs
    && forall c <- cat.chains :: c in cat'.chains && cat.chains[c] <= cat'.chains[c] && IsChain(v', cat'.chains[c])
  }

  ghost predicate KeepsFiles(v: Volume, cat: Catalog, v': Volume, cat': Catalog) {
    forall c <- cat.chains | c !in cat.dirs ::
      c !in cat'.dirs && c in cat'.chains && cat'.chains[c] == cat.chains[c]
      && Secs(v'.data, cat.chains[c]) == Secs(v.data, cat.chains[c])
  }

  ghost predicate KeepsDirs(v: Volume, cat: Catalog, v': Volume, cat': Catalog) {
    forall d | IsDirOf(cat, d) :: Finds(Entries(v, cat, d), Entries(v', cat', d))
  }

  /** Every chain, file and findable name of (v, cat) is still there in (v', cat'). */
  ghost predicate Keeps(v: Volume, cat: Catalog, v': Volume, cat': Catalog) {
    KeepsChains(cat, v', cat') && KeepsFiles(v, cat, v', cat') && KeepsDirs(v, cat, v', cat')
  }

  lemma FindsTransitive(a: seq<Entry>, b: seq<Entry>, c: seq<Entry>)
    requires Finds(a, b) && Finds(b, c)
    ensures Finds(a, c)
  {
    forall key | Lookup(a, key).Some?
      ensures Lookup(c, key) == Lookup(a, key)
    {
      assert Lookup(b, key).Some?;
    }
  }

  lemma KeepsTransitive(v0: Volume, cat0: Catalog, v1: Volume, cat1: Catalog, v2: Volume, cat2: Catalog)
    requires Keeps(v0, cat0, v1, cat1) && Keeps(v1, cat1, v2, cat2)
    ensures Keeps(v0, cat0, v2, cat2)
  {
    forall d | IsDirOf(cat0, d)
      ensures Finds(Entries(v0, cat0, d), Entries(v2, cat2, d))
    {
      FindsTransitive(Entries(v0, cat0, d), Entries(v1, cat1, d), Entries(v2, cat2, d));
    }
    forall c <- cat0.chains
      ensures c in cat2.chains && cat0.chains[c] <= cat2.chains[c] && IsChain(v2, cat2.chains[c])
    {
    }
  }

  lemma KeptLook(v: Volume, cat: Catalog, v': Volume, cat': Catalog, spot: Spot, comp: seq<byte>)
    requires Keeps(v, cat, v', cat') && Look(v, cat, spot, comp).Found?
    ensures Look(v', cat', spot, comp) == Look(v, cat, spot, comp)
  {
    var d := if spot.AtRoot? then 0 else spot.e.clus;
    assert IsDirOf(cat, d);
    assert Finds(Entries(v, cat, d), Entries(v', cat', d));
  }

  /** A path that resolved still resolves to the same entry. */
  lemma {:induction false} KeptPathResolves(v: Volume, cat: Catalog, v': Volume, cat': Catalog, comps: seq<seq<byte>>)
    requires Keeps(v, cat, v', cat') && !Walk(v, cat, comps).Fail?
    ensures Walk(v', cat', comps) == Walk(v, cat, comps)
  {
    if comps != [] {
      var before := comps[..|comps| - 1];
      KeptPathResolves(v, cat, v', cat', before);
      KeptLook(v, cat, v', cat', Walk(v, cat, before), comps[|comps| - 1]);
    }
  }

  /** ... and, if it is a file, to the same sectors. */
  lemma KeptFileBytes(v: Volume, cat: Catalog, v': Volume, cat': Catalog, comps: seq<seq<byte>>, e: Entry)
    requires Keeps(v, cat, v', cat') && Walk(v, cat, comps) == Found(e)
    requires e.clus in cat.chains && e.clus !in cat.dirs
    ensures Walk(v', cat', comps) == Found(e)
    ensures e.clus in cat'.chains && Secs(v'.data, cat'.chains[e.clus]) == Secs(v.data, cat.chains[e.clus])
  {
    KeptPathResolves(v, cat, v', cat', comps);
  }
}
