/** Exactly when the read loop as shipped delivers a file's bytes. */
module FatShipped {
  import opened Bytes
  import opened FatVolume
  import opened FatTree
  import opened FatRead

  // The same volume but for what the clusters hold.
  ghost predicate SameLinks(v: Volume, w: Volume) {
    && w.fat == v.fat && |w.data| == |v.data|
    && forall k :: 0 <= k < |v.data| ==> |w.data[k]| == |v.data[k]|
  }

  lemma LinksShape(v: Volume, w: Volume)
    requires Shaped(v) && SameLinks(v, w)
    ensures Shaped(w) && ClusterBytes(w) == ClusterBytes(v)
    ensures forall c: nat :: Clus(w, c) <==> Clus(v, c)
    ensures forall c: nat :: Clus(v, c) ==> Next(w, c) == Next(v, c)
  {
    assert EvenClusters(w.data) by { assert forall k :: 0 <= k < |v.data| ==> |w.data[k]| == |v.data[k]|; }
  }

  lemma {:induction false} SameFollow(v: Volume, w: Volume, c: u16, k: nat)
    requires Shaped(v) && Shaped(w) && SameLinks(v, w)
    ensures Follow(w, c, k) == Follow(v, c, k)
    decreases k
  {
    LinksShape(v, w);
    if Clus(v, c) && k > 0 { SameFollow(v, w, Next(v, c), k - 1); }
  }

  lemma {:induction false} SameRun(v: Volume, w: Volume, c: u16, n: nat)
    requires Shaped(v) && Shaped(w) && SameLinks(v, w)
    ensures Run(w, c, n) == Run(v, c, n)
    decreases n
  {
    LinksShape(v, w);
    if Clus(v, c) && n > 0 { SameRun(v, w, Next(v, c), n - 1); }
  }

  // Cluster c holds zeros, every other cluster ones.
  function Marked(v: Volume, c: u16): (w: Volume) {
    v.(data := seq(|v.data|, k requires 0 <= k < |v.data| =>
      seq(|v.data[k]|, _ => if k == c - 2 then ZeroSector() else OnesSector())))
  }

  ghost predicate AllAre(f: seq<byte>, b: byte) {
    forall x :: 0 <= x < |f| ==> f[x] == b
  }

  lemma MarkedBytes(v: Volume, c: u16, d: u16)
    requires Shaped(v) && Clus(v, d)
    ensures SameLinks(v, Marked(v, c)) && Shaped(Marked(v, c)) && Clus(Marked(v, c), d)
    ensures |Flat(Marked(v, c).data[d - 2])| == ClusterBytes(v) > 0
    ensures AllAre(Flat(Marked(v, c).data[d - 2]), if d == c then 0 else 1)
  {
    var w := Marked(v, c);
    LinksShape(v, w);
    FlatOfCluster(w, d);
    CbPositive(v);
  }

  lemma {:induction false} ZerosCycle(f: seq<byte>, at: nat, bytes: seq<byte>)
    requires at < |f| && AllAre(f, 0) && AllAre(bytes, 0)
    ensures Cycled(f, at, bytes)
    decreases |bytes|
  {
    if at + |bytes| > |f| {
      ZerosCycle(f, 0, bytes[|f| - at..]);
    }
  }

  // Past the end of the start cluster the range holds ones.
  lemma MarkedRange(v: Volume, c: u16, at: nat, size: nat)
    requires Shaped(v) && Clus(v, c) && Next(v, c) != c && size > 0 && at < ClusterBytes(v) < at + size
    requires Shaped(Marked(v, c)) && Range(Marked(v, c), c, at, size).Some?
    ensures ClusterBytes(v) - at < size && |Range(Marked(v, c), c, at, size).value| == size
    ensures Range(Marked(v, c), c, at, size).value[ClusterBytes(v) - at] == 1
  {
    hide Range, Run, Flat, Marked;
    var w, cb, d := Marked(v, c), ClusterBytes(v), Next(v, c);
    var more := at + size - cb;
    MarkedBytes(v, c, c);
    LinksShape(v, w);
    RangeHead(w, c, at, size);
    RangeLength(w, c, at, size);
    RangeLength(w, d, 0, more);
    assert Clus(w, d) by { RangeStarts(w, d, 0, more); }
    MarkedBytes(v, c, d);
    RangeHead(w, d, 0, more);
    var f, rest := Flat(w.data[c - 2]), Range(w, d, 0, more).value;
    assert rest[0] == 1;
    assert (f[at..] + rest)[cb - at] == rest[0];
  }

  lemma RangeLength(v: Volume, c: u16, off: nat, size: nat)
    requires Shaped(v) && Range(v, c, off, size).Some?
    ensures |Range(v, c, off, size).value| == size
  {
    if size > 0 {
      CbPositive(v);
      RangeFits(v, Run(v, c, Needed(ClusterBytes(v), off, size)).value, off, size);
    }
  }

  lemma RangeStarts(v: Volume, c: u16, off: nat, size: nat)
    requires Shaped(v) && size > 0 && Range(v, c, off, size).Some?
    ensures Clus(v, c)
  {
    CbPositive(v);
  }

  // What the shipped loop delivers is the range.
  ghost predicate Right(w: Volume, first: u16, off: nat, size: nat)
    requires Shaped(w)
  {
    forall bytes :: OneClusterOver(w, first, off, size, bytes) ==> Range(w, first, off, size) == Some(bytes)
  }

  // It is, whatever the clusters hold.
  ghost predicate AlwaysRight(v: Volume, first: u16, off: nat, size: nat) {
    forall w :: Shaped(w) && SameLinks(v, w) ==> Right(w, first, off, size)
  }

  lemma WrongOnMarked(v: Volume, first: u16, off: nat, size: nat)
    requires Shaped(v) && size > 0 && Range(v, first, off, size).Some? && StartClus(v, first, off).Some?
    requires var c := StartClus(v, first, off).value; Clus(v, c) && Next(v, c) != c
    requires StartOff(v, off) + size > ClusterBytes(v)
    ensures !AlwaysRight(v, first, off, size)
  {
    hide Range, Run, Flat, Marked, Cycled;
    var c, at := StartClus(v, first, off).value, StartOff(v, off);
    var w, zeros := Marked(v, c), seq(size, _ => 0);
    MarkedBytes(v, c, c);
    LinksShape(v, w);
    StartSame(v, w, first, off);
    ZerosCycle(Flat(w.data[c - 2]), at, zeros);
    assert OneClusterOver(w, first, off, size, zeros);
    RangeFromStart(w, first, off, size);
    SameRange(v, w, first, off, size);
    MarkedRange(v, c, at, size);
    assert zeros[ClusterBytes(v) - at] == 0;
    assert !Right(w, first, off, size);
  }

  lemma StartSame(v: Volume, w: Volume, first: u16, off: nat)
    requires Shaped(v) && Shaped(w) && SameLinks(v, w) && ClusterBytes(w) == ClusterBytes(v)
    ensures StartClus(w, first, off) == StartClus(v, first, off)
      && StartOff(w, off) == StartOff(v, off) < ClusterBytes(v)
  {
    CbPositive(v);
    SameFollow(v, w, first, Quot(off, ClusterBytes(v)));
  }

  lemma SameRange(v: Volume, w: Volume, first: u16, off: nat, size: nat)
    requires Shaped(v) && Shaped(w) && SameLinks(v, w) && ClusterBytes(w) == ClusterBytes(v) && size > 0
    ensures Range(w, first, off, size).Some? <==> Range(v, first, off, size).Some?
  {
    CbPositive(v);
    SameRun(v, w, first, Needed(ClusterBytes(v), off, size));
  }

  /**
   The shipped loop delivers the range, whatever the clusters hold, exactly when the range
   stays inside the cluster it starts in.
   */
  lemma ShippedIsRightExactly(v: Volume, first: u16, off: nat, size: nat)
    requires Shaped(v) && Clus(v, first) && size > 0 && Range(v, first, off, size).Some?
    requires StartClus(v, first, off).Some? && Next(v, StartClus(v, first, off).value) != StartClus(v, first, off).value
    ensures AlwaysRight(v, first, off, size) <==> StartOff(v, off) + size <= ClusterBytes(v)
  {
    hide Range, Run, Flat, OneClusterOver;
    if StartOff(v, off) + size <= ClusterBytes(v) {
      forall w, bytes | Shaped(w) && SameLinks(v, w) && OneClusterOver(w, first, off, size, bytes)
        ensures Range(w, first, off, size) == Some(bytes)
      {
        LinksShape(v, w);
        StartSame(v, w, first, off);
        ShippedWithinCluster(w, first, off, size, bytes);
      }
    } else {
      WrongOnMarked(v, first, off, size);
    }
  }

  /** No cluster of a chain links to itself, so the theorem above covers every file. */
  lemma ChainsDoNotLoop(v: Volume, cs: seq<u16>, i: nat)
    requires Shaped(v) && IsChain(v, cs) && i < |cs|
    ensures Next(v, cs[i]) != cs[i]
  {
    if i + 1 < |cs| {
      ChainIsAcyclic(v, cs, i, i + 1);
    } else {
      assert Clus(v, cs[i]);
    }
  }
}
