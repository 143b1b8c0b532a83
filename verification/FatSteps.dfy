/** What each kind of sector write does to the volume invariant and to what is already stored. */
module FatSteps {
  import opened Bytes
  import opened FatVolume
  import opened FatTree

  // The first n FAT copies rewritten at one cell.
  function SetCopies(v: Volume, n: nat, c: nat, x: u16): (w: Volume)
    requires n <= |v.fat| && forall i :: 0 <= i < |v.fat| ==> c < |v.fat[i]|
  {
    var rows: seq<seq<u16>> := seq(|v.fat|, i requires 0 <= i < |v.fat| => SetRow(v.fat[i], i < n, c, x));
    v.(fat := rows)
  }

  function SetRow(row: seq<u16>, yes: bool, c: nat, x: u16): (r: seq<u16>)
    requires c < |row|
    ensures |r| == |row|
  {
    if yes then row[c := x] else row
  }

  ghost predicate Unchained(cat: Catalog, c: u16) {
    forall k <- cat.chains :: c !in cat.chains[k]
  }

  // w is v but for the contents of cluster c.
  ghost predicate OnlyCluster(v: Volume, w: Volume, c: u16) {
    w.fat == v.fat && w.root == v.root && DataOnly(v.data, w.data, c)
  }

  ghost predicate DataOnly(a: seq<seq<Sector>>, b: seq<seq<Sector>>, c: u16) {
    && |a| == |b|
    && forall k :: 0 <= k < |a| ==> |b[k]| == |a[k]| && (k != c - 2 ==> b[k] == a[k])
  }

  ghost predicate SameContents(v: Volume, w: Volume, cat: Catalog) {
    w.root == v.root && forall c <- cat.chains :: Secs(w.data, cat.chains[c]) == Secs(v.data, cat.chains[c])
  }

  lemma {:induction false} SecsFrame(a: seq<seq<Sector>>, b: seq<seq<Sector>>, cs: seq<u16>, c: u16)
    requires DataOnly(a, b, c) && c !in cs
    ensures Secs(a, cs) == Secs(b, cs)
  {
    if cs != [] {
      SecsFrame(a, b, cs[1..], c);
    }
  }

  lemma SameContentsKeeps(v: Volume, w: Volume, cat: Catalog)
    requires WellFormedVolume(v, cat) && SameContents(v, w, cat)
    requires Shaped(w) && ChainsOk(w, cat)
    ensures Keeps(v, cat, w, cat)
    ensures forall d | IsDirOf(cat, d) :: Entries(w, cat, d) == Entries(v, cat, d)
  {
    forall d | IsDirOf(cat, d)
      ensures Entries(w, cat, d) == Entries(v, cat, d)
    {
      assert d in cat.dirs ==> d in cat.chains;
    }
  }

  lemma SameContentsWellFormed(v: Volume, w: Volume, cat: Catalog)
    requires WellFormedVolume(v, cat) && SameContents(v, w, cat)
    requires Shaped(w) && ChainsOk(w, cat) && FatOk(w)
    ensures WellFormedVolume(w, cat)
  {
    forall d | IsDirOf(cat, d)
      ensures DirOk(w, cat, d)
    {
      assert DirOk(v, cat, d);
      assert d in cat.dirs ==> d in cat.chains;
      assert DirSecs(w, cat, d) == DirSecs(v, cat, d);
      forall e <- Entries(w, cat, d)
        ensures EntryOk(w, cat, e) && AtHome(cat, d, e)
      {
        assert e in Entries(v, cat, d) && EntryOk(v, cat, e) && AtHome(cat, d, e);
      }
    }
  }

  // ----- allocating -----

  lemma ChainMemberIsLinked(v: Volume, cat: Catalog, k: u16, i: nat)
    requires WellFormedVolume(v, cat) && k in cat.chains && i < |cat.chains[k]|
    ensures Clus(v, cat.chains[k][i]) && v.fat[0][cat.chains[k][i]] != 0
  {
    var cs := cat.chains[k];
    assert IsChain(v, cs);
    assert i + 1 < |cs| ==> Clus(v, cs[i + 1]);
  }

  lemma FreeIsUnchained(v: Volume, cat: Catalog, c: u16)
    requires WellFormedVolume(v, cat) && c < |v.fat[0]| && v.fat[0][c] == 0
    ensures Unchained(cat, c)
  {
    forall k <- cat.chains
      ensures c !in cat.chains[k]
    {
      if c in cat.chains[k] {
        var i :| 0 <= i < |cat.chains[k]| && cat.chains[k][i] == c;
        ChainMemberIsLinked(v, cat, k, i);
      }
    }
  }

  lemma ChainFrame(v: Volume, w: Volume, cs: seq<u16>)
    requires Shaped(v) && Shaped(w) && IsChain(v, cs)
    requires |w.data| == |v.data| && |w.fat[0]| == |v.fat[0]|
    requires forall c <- cs :: Clus(v, c) ==> Next(w, c) == Next(v, c)
    ensures IsChain(w, cs)
  {
    forall i | 0 <= i < |cs|
      ensures Clus(w, cs[i]) && Next(w, cs[i]) == Next(v, cs[i])
    {
      assert cs[i] in cs;
    }
  }

  lemma SetCopiesShape(v: Volume, n: nat, c: nat, x: u16)
    requires Shaped(v) && n <= |v.fat| && c < |v.fat[0]|
    ensures var w := SetCopies(v, n, c, x);
      Shaped(w) && |w.fat| == |v.fat| && |w.fat[0]| == |v.fat[0]|
      && forall b | 0 <= b < |v.fat[0]| && b != c :: Next(w, b) == Next(v, b)
  {
  }

  /** Writing an end mark into a free cell, in the first n copies, disturbs nothing. */
  lemma AllocStep(v: Volume, cat: Catalog, n: nat, c: u16)
    requires WellFormedVolume(v, cat) && n <= |v.fat| && c < |v.fat[0]| && v.fat[0][c] == 0
    ensures var w := SetCopies(v, n, c, 0xFFFF);
      WellFormedVolume(w, cat) && Keeps(v, cat, w, cat)
      && forall d | IsDirOf(cat, d) :: Entries(w, cat, d) == Entries(v, cat, d)
  {
    var w := SetCopies(v, n, c, 0xFFFF);
    SetCopiesShape(v, n, c, 0xFFFF);
    FreeIsUnchained(v, cat, c);
    assert FatOk(w) by { AllocFatOk(v, n, c); }
    forall k <- cat.chains
      ensures IsChain(w, cat.chains[k])
    {
      ChainFrame(v, w, cat.chains[k]);
    }
    SameContentsKeeps(v, w, cat);
    SameContentsWellFormed(v, w, cat);
  }

  lemma AllocFatOk(v: Volume, n: nat, c: u16)
    requires Shaped(v) && FatOk(v) && n <= |v.fat| && c < |v.fat[0]|
    ensures var w := SetCopies(v, n, c, 0xFFFF); Shaped(w) && FatOk(w)
  {
    var w := SetCopies(v, n, c, 0xFFFF);
    SetCopiesShape(v, n, c, 0xFFFF);
    forall b | 2 <= b < |w.fat[0]| && w.fat[0][b] == 0
      ensures Clus(w, b)
    {
      assert v.fat[0][b] == 0;
    }
  }

  // ----- filling a cluster nobody uses -----

  /** Any contents may be written to a cluster in no chain. */
  lemma ScratchStep(v: Volume, cat: Catalog, w: Volume, c: u16)
    requires WellFormedVolume(v, cat) && Unchained(cat, c) && OnlyCluster(v, w, c)
    ensures WellFormedVolume(w, cat) && Keeps(v, cat, w, cat)
    ensures forall d | IsDirOf(cat, d) :: Entries(w, cat, d) == Entries(v, cat, d)
  {
    assert EvenClusters(w.data) by { assert forall k :: 0 <= k < |v.data| ==> |w.data[k]| == |v.data[k]|; }
    assert Shaped(w);
    forall k <- cat.chains
      ensures IsChain(w, cat.chains[k]) && Secs(w.data, cat.chains[k]) == Secs(v.data, cat.chains[k])
    {
      ChainFrame(v, w, cat.chains[k]);
      SecsFrame(v.data, w.data, cat.chains[k], c);
    }
    assert FatOk(w);
    SameContentsKeeps(v, w, cat);
    SameContentsWellFormed(v, w, cat);
  }

  // ----- extending a directory's chain -----

  /** Copies 0..n-1 link `last` to `ext`; nothing is said about what `ext` holds. */
  ghost predicate Linked(v: Volume, w: Volume, n: nat, last: u16, ext: u16)
    requires Shaped(v) && last < |v.fat[0]|
  {
    && 1 <= n <= |v.fat|
    && w.fat == SetCopies(v, n, last, ext).fat
    && w.root == v.root
    && DataOnly(v.data, w.data, ext)
  }

  function Extended(cat: Catalog, p: u16, ext: u16): Catalog
    requires p in cat.chains
  {
    cat.(chains := cat.chains[p := cat.chains[p] + [ext]])
  }

  // No slot a new entry could go to, so no end mark either.
  ghost predicate Full(slots: seq<Slot>) {
    forall k :: 0 <= k < |slots| ==> !IsFree(slots[k])
  }

  // Everything `LinkStep` assumes.
  ghost predicate LinkReady(v: Volume, cat: Catalog, p: u16, ext: u16) {
    && WellFormedVolume(v, cat)
    && p in cat.dirs && Full(Slots(DirSecs(v, cat, p)))
    && Unchained(cat, ext) && Clus(v, ext) && v.fat[0][ext] == 0xFFFF
  }

  function LastOf(cat: Catalog, p: u16): u16
    requires p in cat.chains && cat.chains[p] != []
  {
    cat.chains[p][|cat.chains[p]| - 1]
  }

  lemma {:induction false} LiveConcat(a: seq<Slot>, b: seq<Slot>)
    requires forall k :: 0 <= k < |a| ==> a[k][0] != 0
    ensures LiveEntries(a + b) == LiveEntries(a) + LiveEntries(b)
  {
    if a == [] {
      assert a + b == b;
    } else {
      assert (a + b)[0] == a[0] && (a + b)[1..] == a[1..] + b;
      LiveConcat(a[1..], b);
    }
  }

  lemma {:induction false} LookupConcat(a: seq<Entry>, b: seq<Entry>, key: seq<byte>)
    ensures Lookup(a + b, key) == if Lookup(a, key).Some? then Lookup(a, key) else Lookup(b, key)
  {
    if a == [] {
      assert a + b == b;
    } else {
      assert (a + b)[0] == a[0] && (a + b)[1..] == a[1..] + b;
      LookupConcat(a[1..], b, key);
    }
  }

  lemma SlotsConcat(a: seq<Sector>, b: seq<Sector>)
    ensures Slots(a + b) == Slots(a) + Slots(b)
  {
    forall k | 0 <= k < |Slots(a + b)|
      ensures Slots(a + b)[k] == (Slots(a) + Slots(b))[k]
    {
      if k >= |a| * 16 {
        assert k / 16 == |a| + (k - |a| * 16) / 16 && k % 16 == (k - |a| * 16) % 16;
      }
    }
  }

  lemma LinkChains(v: Volume, cat: Catalog, p: u16, ext: u16, n: nat, w: Volume)
    requires LinkReady(v, cat, p, ext) && cat.chains[p] != [] && LastOf(cat, p) < |v.fat[0]|
    requires Linked(v, w, n, LastOf(cat, p), ext)
    ensures Shaped(w) && ChainsOk(w, Extended(cat, p, ext))
  {
    hide DirOk, Slots, Secs, Full, IsChain, SetCopies, Apart;
    var last, cat' := LastOf(cat, p), Extended(cat, p, ext);
    LinkShape(v, w, n, last, ext);
    forall k <- cat.chains
      ensures IsChain(w, cat'.chains[k]) && cat'.chains[k] != [] && cat'.chains[k][0] == k
    {
      ChainNotEmpty(v, cat.chains[k]);
      if k == p {
        LinkedChain(v, w, cat.chains[p], ext);
      } else {
        LinkMisses(cat, p, k);
        ChainFrame(v, w, cat.chains[k]);
      }
    }
    LinkApart(v, cat, p, ext);
  }

  lemma ChainNotEmpty(v: Volume, cs: seq<u16>)
    requires Shaped(v) && IsChain(v, cs)
    ensures cs != []
  {
  }

  lemma LinkMisses(cat: Catalog, p: u16, k: u16)
    requires p in cat.chains && k in cat.chains && cat.chains[p] != [] && Apart(cat.chains[p], cat.chains[k])
    ensures LastOf(cat, p) !in cat.chains[k]
  {
    assert LastOf(cat, p) in cat.chains[p];
  }

  lemma LinkShape(v: Volume, w: Volume, n: nat, last: u16, ext: u16)
    requires Shaped(v) && last < |v.fat[0]| && Linked(v, w, n, last, ext) && ext > 0
    ensures Shaped(w) && |w.data| == |v.data| && |w.fat[0]| == |v.fat[0]| && Next(w, last) == ext
    ensures forall b | 0 <= b < |v.fat[0]| && b != last :: Next(w, b) == Next(v, b)
  {
    assert EvenClusters(w.data) by { assert forall k :: 0 <= k < |v.data| ==> |w.data[k]| == |v.data[k]|; }
    SetCopiesShape(v, n, last, ext);
  }

  lemma LinkApart(v: Volume, cat: Catalog, p: u16, ext: u16)
    requires Shaped(v) && ChainsOk(v, cat) && Unchained(cat, ext) && p in cat.chains
    ensures var cat' := Extended(cat, p, ext);
      forall a <- cat'.chains, b <- cat'.chains | a != b :: Apart(cat'.chains[a], cat'.chains[b])
  {
    var cat' := Extended(cat, p, ext);
    forall a <- cat'.chains, b <- cat'.chains | a != b
      ensures Apart(cat'.chains[a], cat'.chains[b])
    {
      assert Apart(cat.chains[a], cat.chains[b]) && ext !in cat.chains[a] && ext !in cat.chains[b];
    }
  }

  lemma LinkedChain(v: Volume, w: Volume, cs: seq<u16>, ext: u16)
    requires Shaped(v) && Shaped(w) && IsChain(v, cs) && Clus(v, ext)
    requires |w.data| == |v.data| && |w.fat[0]| == |v.fat[0]|
    requires forall b | 0 <= b < |v.fat[0]| && b != cs[|cs| - 1] :: Next(w, b) == Next(v, b)
    requires ext !in cs && Next(w, cs[|cs| - 1]) == ext && IsEoc(Next(w, ext))
    ensures IsChain(w, cs + [ext])
  {
    var x := cs + [ext];
    forall i | 0 <= i < |x| - 1
      ensures Next(w, x[i]) == x[i + 1]
    {
      if i < |cs| - 1 {
        ChainIsAcyclic(v, cs, i, |cs| - 1);
      }
    }
  }

  lemma LinkSecs(v: Volume, cat: Catalog, p: u16, ext: u16, w: Volume, k: u16)
    requires LinkReady(v, cat, p, ext) && DataOnly(v.data, w.data, ext) && k in cat.chains
    ensures Secs(w.data, Extended(cat, p, ext).chains[k])
         == if k == p then Secs(v.data, cat.chains[k]) + Cluster(w.data, ext) else Secs(v.data, cat.chains[k])
  {
    SecsFrame(v.data, w.data, cat.chains[k], ext);
    SecsConcat(w.data, cat.chains[k], [ext]);
    assert Secs(w.data, [ext]) == Cluster(w.data, ext) + Secs(w.data, []);
  }

  lemma LinkEntries(v: Volume, cat: Catalog, p: u16, ext: u16, w: Volume, d: u16)
    requires LinkReady(v, cat, p, ext) && DataOnly(v.data, w.data, ext) && w.root == v.root && IsDirOf(cat, d)
    ensures DirSecs(w, Extended(cat, p, ext), d)
         == DirSecs(v, cat, d) + if d == p then Cluster(w.data, ext) else []
    ensures Entries(w, Extended(cat, p, ext), d)
         == Entries(v, cat, d) + if d == p then LiveEntries(Slots(Cluster(w.data, ext))) else []
  {
    assert p != 0 by { assert IsChain(v, cat.chains[p]); }
    if d in cat.dirs {
      LinkSecs(v, cat, p, ext, w, d);
    }
    if d == p {
      SlotsConcat(DirSecs(v, cat, d), Cluster(w.data, ext));
      LiveConcat(Slots(DirSecs(v, cat, d)), Slots(Cluster(w.data, ext)));
    }
  }

  /** Linking in a cluster of arbitrary contents loses nothing that could be found. */
  lemma LinkStep(v: Volume, cat: Catalog, p: u16, ext: u16, n: nat, w: Volume)
    requires LinkReady(v, cat, p, ext) && cat.chains[p] != [] && LastOf(cat, p) < |v.fat[0]|
    requires Linked(v, w, n, LastOf(cat, p), ext)
    ensures Keeps(v, cat, w, Extended(cat, p, ext))
  {
    var cat' := Extended(cat, p, ext);
    LinkChains(v, cat, p, ext, n, w);
    forall d | IsDirOf(cat, d)
      ensures Finds(Entries(v, cat, d), Entries(w, cat', d))
    {
      LinkEntries(v, cat, p, ext, w, d);
      var more := if d == p then LiveEntries(Slots(Cluster(w.data, ext))) else [];
      forall key | Lookup(Entries(v, cat, d), key).Some?
        ensures Lookup(Entries(w, cat', d), key) == Lookup(Entries(v, cat, d), key)
      {
        LookupConcat(Entries(v, cat, d), more, key);
      }
    }
    forall c <- cat.chains | c !in cat.dirs
      ensures c !in cat'.dirs && cat'.chains[c] == cat.chains[c]
      ensures Secs(w.data, cat.chains[c]) == Secs(v.data, cat.chains[c])
    {
      LinkSecs(v, cat, p, ext, w, c);
    }
  }

  ghost predicate ZeroCluster(w: Volume, c: u16) {
    2 <= c < |w.data| + 2 && AllZero(w.data[c - 2])
  }

  ghost predicate AllZero(secs: seq<Sector>) {
    forall i :: 0 <= i < |secs| ==> secs[i] == ZeroSector()
  }

  lemma ZeroSlots(secs: seq<Sector>)
    requires AllZero(secs)
    ensures forall k :: 0 <= k < |secs| * 16 ==> Slots(secs)[k][0] == 0
    ensures LiveEntries(Slots(secs)) == []
  {
  }

  /** Once the linked cluster is zeroed, the invariant is back and every directory reads as before. */
  lemma LinkDone(v: Volume, cat: Catalog, p: u16, ext: u16, n: nat, w: Volume)
    requires LinkReady(v, cat, p, ext) && cat.chains[p] != [] && LastOf(cat, p) < |v.fat[0]|
    requires Linked(v, w, n, LastOf(cat, p), ext) && ZeroCluster(w, ext)
    ensures WellFormedVolume(w, Extended(cat, p, ext))
    ensures forall d | IsDirOf(cat, d) :: Entries(w, Extended(cat, p, ext), d) == Entries(v, cat, d)
  {
    var cat' := Extended(cat, p, ext);
    LinkChains(v, cat, p, ext, n, w);
    LinkFatOk(v, w, n, LastOf(cat, p), ext);
    ZeroSlots(Cluster(w.data, ext));
    forall d | IsDirOf(cat, d)
      ensures DirOk(w, cat', d) && Entries(w, cat', d) == Entries(v, cat, d)
    {
      LinkEntries(v, cat, p, ext, w, d);
      assert DirOk(v, cat, d);
      SlotsConcat(DirSecs(v, cat, d), if d == p then Cluster(w.data, ext) else []);
      assert Closed(Slots(DirSecs(w, cat', d)));
      forall e <- Entries(w, cat', d)
        ensures EntryOk(w, cat', e) && AtHome(cat', d, e)
      {
        LinkEntryOk(v, cat, p, ext, w, d, e);
      }
    }
  }

  lemma LinkEntryOk(v: Volume, cat: Catalog, p: u16, ext: u16, w: Volume, d: u16, e: Entry)
    requires LinkReady(v, cat, p, ext) && DataOnly(v.data, w.data, ext)
    requires EntryOk(v, cat, e) && AtHome(cat, d, e)
    ensures EntryOk(w, Extended(cat, p, ext), e) && AtHome(Extended(cat, p, ext), d, e)
  {
    if e.clus in cat.chains {
      LinkSecs(v, cat, p, ext, w, e.clus);
    }
  }

  lemma LinkFatOk(v: Volume, w: Volume, n: nat, last: u16, ext: u16)
    requires Shaped(v) && Shaped(w) && FatOk(v) && last < |v.fat[0]| && ext != 0
    requires Linked(v, w, n, last, ext)
    ensures FatOk(w)
  {
    forall c | 0 <= c < |w.fat[0]| && w.fat[0][c] == 0
      ensures c != last && v.fat[0][c] == 0
      ensures |w.fat| > 1 ==> w.fat[1][c] == v.fat[1][c]
    {
    }
  }
}
