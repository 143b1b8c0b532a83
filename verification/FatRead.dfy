/**
 `fat16_read_file_by_clus`: the range it is meant to read, the loop as intended, and the
 loop as shipped, which lacks the step to the next cluster.
 */
module FatRead {
  import opened Bytes
  import opened FatVolume
  import opened FatTree
  import opened FatMount
  import A = Arith

  // ----- specification -----

  // No link leads out of the data region: it ends the chain, breaks it, or names a cluster.
  ghost predicate NoWild(v: Volume) {
    Shaped(v) && forall c: u16 :: Clus(v, c) ==> Next(v, c) < 2 || IsEoc(Next(v, c)) || Clus(v, Next(v, c))
  }

  /** The first n clusters of the chain from c, or nothing if it is too short or broken. */
  function Run(v: Volume, c: u16, n: nat): (r: Option<seq<u16>>)
    requires Shaped(v)
    ensures r.Some? ==> |r.value| == n && forall i :: 0 <= i < n ==> Clus(v, r.value[i])
    ensures r.Some? && n > 0 ==> r.value[0] == c
    decreases n
  {
    if n == 0 then Some([])
    else if !Clus(v, c) then None
    else
      var rest := Run(v, Next(v, c), n - 1);
      if rest.None? then None else Some([c] + rest.value)
  }

  function ClusterBytes(v: Volume): nat {
    (if |v.data| == 0 then 1 else |v.data[0]|) * 512
  }

  // Whole multiples of d in x.
  function Quot(x: nat, d: nat): (q: nat)
    requires d > 0
    ensures q * d <= x < q * d + d
  {
    if x < d then 0 else 1 + Quot(x - d, d)
  }

  // How many clusters a non-empty range reaches into.
  function Needed(cb: nat, off: nat, size: nat): nat
    requires cb > 0 && size > 0
  {
    (off + size - 1) / cb + 1
  }

  /** Bytes [off, off + size) of the chain from c. */
  function Range(v: Volume, c: u16, off: nat, size: nat): (r: Option<seq<byte>>)
    requires Shaped(v)
  {
    if size == 0 then Some([])
    else
      CbPositive(v);
      var run := Run(v, c, Needed(ClusterBytes(v), off, size));
      if run.None? then None
      else
        RangeFits(v, run.value, off, size);
        Some(Flat(Secs(v.data, run.value))[off..off + size])
  }

  lemma CbPositive(v: Volume)
    requires Shaped(v)
    ensures ClusterBytes(v) > 0
  {
  }

  lemma {:induction false} RunLength(v: Volume, cs: seq<u16>)
    requires Shaped(v) && forall i :: 0 <= i < |cs| ==> Clus(v, cs[i])
    ensures |Secs(v.data, cs)| * 512 == |cs| * ClusterBytes(v)
  {
    if cs != [] {
      RunLength(v, cs[1..]);
      OneMore(|v.data[cs[0] - 2]|, |Secs(v.data, cs[1..])|, |cs|, ClusterBytes(v));
    }
  }

  lemma OneMore(first: nat, rest: nat, n: nat, cb: nat)
    requires n > 0 && first * 512 == cb && rest * 512 == (n - 1) * cb
    ensures (first + rest) * 512 == n * cb
  {
    A.Distrib(n - 1, 1, cb);
  }

  lemma RangeFits(v: Volume, cs: seq<u16>, off: nat, size: nat)
    requires Shaped(v) && forall i :: 0 <= i < |cs| ==> Clus(v, cs[i])
    requires ClusterBytes(v) > 0 && size > 0 && |cs| == Needed(ClusterBytes(v), off, size)
    ensures off + size <= |Flat(Secs(v.data, cs))|
  {
    RunLength(v, cs);
    var cb, x := ClusterBytes(v), off + size - 1;
    assert x < (x / cb + 1) * cb by { DivStep(x, cb); }
  }

  lemma DivStep(x: nat, d: nat)
    requires d > 0
    ensures x / d * d <= x < (x / d + 1) * d
  {
  }

  lemma FlatConcat(a: seq<Sector>, b: seq<Sector>)
    ensures Flat(a + b) == Flat(a) + Flat(b)
  {
    forall k | 0 <= k < |Flat(a + b)|
      ensures Flat(a + b)[k] == (Flat(a) + Flat(b))[k]
    {
      if k >= |a| * 512 {
        assert k / 512 == |a| + (k - |a| * 512) / 512 && k % 512 == (k - |a| * 512) % 512;
      }
    }
  }

  // A longer run starts with the shorter one.
  lemma {:induction false} RunPrefix(v: Volume, c: u16, m: nat, n: nat)
    requires Shaped(v) && m <= n && Run(v, c, n).Some?
    ensures Run(v, c, m).Some? && Run(v, c, m).value == Run(v, c, n).value[..m]
    decreases m
  {
    if m > 0 {
      RunPrefix(v, Next(v, c), m - 1, n - 1);
    }
  }

  // The bytes of a run, read through any longer run.
  lemma RunBytes(v: Volume, c: u16, m: nat, n: nat, off: nat, size: nat)
    requires Shaped(v) && m <= n && Run(v, c, n).Some? && Run(v, c, m).Some?
    requires off + size <= |Flat(Secs(v.data, Run(v, c, m).value))|
    ensures off + size <= |Flat(Secs(v.data, Run(v, c, n).value))|
    ensures Flat(Secs(v.data, Run(v, c, m).value))[off..off + size]
      == Flat(Secs(v.data, Run(v, c, n).value))[off..off + size]
  {
    RunPrefix(v, c, m, n);
    var cs := Run(v, c, n).value;
    assert cs == cs[..m] + cs[m..];
    SecsConcat(v.data, cs[..m], cs[m..]);
    FlatConcat(Secs(v.data, cs[..m]), Secs(v.data, cs[m..]));
  }

  lemma NeededMono(cb: nat, off: nat, a: nat, b: nat)
    requires cb > 0 && a > 0 && b > 0
    ensures Needed(cb, off, a) <= Needed(cb, off, a + b) == Needed(cb, off + a, b)
  {
    DivMono(off + a - 1, off + a + b - 1, cb);
  }

  lemma DivMono(x: nat, y: nat, d: nat)
    requires d > 0 && x <= y
    ensures x / d <= y / d
  {
    DivStep(x, d);
    DivStep(y, d);
    MulOrder(y / d + 1, x / d, d);
  }

  lemma MulOrder(a: nat, b: nat, d: nat)
    ensures a <= b ==> a * d <= b * d
  {
  }

  /** Reading a range in two consecutive pieces gives the bytes of reading it at once. */
  lemma RangeSplits(v: Volume, c: u16, off: nat, a: nat, b: nat)
    requires Shaped(v) && Range(v, c, off, a + b).Some?
    ensures Range(v, c, off, a).Some? && Range(v, c, off + a, b).Some?
    ensures Range(v, c, off, a + b).value == Range(v, c, off, a).value + Range(v, c, off + a, b).value
  {
    if a > 0 && b > 0 {
      CbPositive(v);
      var cb := ClusterBytes(v);
      NeededMono(cb, off, a, b);
      var m, n := Needed(cb, off, a), Needed(cb, off, a + b);
      RunPrefix(v, c, m, n);
      RangeFits(v, Run(v, c, m).value, off, a);
      RunBytes(v, c, m, n, off, a);
      var all := Flat(Secs(v.data, Run(v, c, n).value));
      RangeFits(v, Run(v, c, n).value, off, a + b);
      assert all[off..off + (a + b)] == all[off..off + a] + all[off + a..off + a + b];
    }
  }

  // Skipping a whole cluster.
  lemma RangeShift(v: Volume, c: u16, off: nat, size: nat)
    requires Shaped(v) && Clus(v, c) && size > 0 && off >= ClusterBytes(v)
    ensures Range(v, c, off, size) == Range(v, Next(v, c), off - ClusterBytes(v), size)
  {
    CbPositive(v);
    var cb, next := ClusterBytes(v), Next(v, c);
    hide Flat, Secs, Needed, ClusterBytes, Next;
    var n := Needed(cb, off - cb, size);
    NeededShift(cb, off, size);
    NeededIs(cb, off - cb, size);
    if Run(v, next, n).Some? {
      var cs := Run(v, next, n).value;
      RangeFits(v, cs, off - cb, size);
      RangeFits(v, [c] + cs, off, size);
      FlatHead(v, c, cs);
      SliceShift(Flat(v.data[c - 2]), Flat(Secs(v.data, cs)), off, size);
    }
  }

  lemma NeededShift(cb: nat, off: nat, size: nat)
    requires cb > 0 && size > 0 && off + size > cb
    ensures Needed(cb, off, size) == (off + size - cb - 1) / cb + 1 + 1
  {
    DivShift(off + size - 1, cb);
  }

  lemma NeededIs(cb: nat, off: nat, size: nat)
    requires cb > 0 && size > 0
    ensures Needed(cb, off, size) == (off + size - 1) / cb + 1
  {
  }

  lemma SliceShift(a: seq<byte>, b: seq<byte>, off: nat, size: nat)
    requires |a| <= off && off + size <= |a| + |b|
    ensures (a + b)[off..off + size] == b[off - |a|..off - |a| + size]
  {
  }

  lemma DivShift(x: nat, d: nat)
    requires d > 0 && x >= d
    ensures x / d == (x - d) / d + 1
  {
    DivStep(x - d, d);
    DivIs(x, d, (x - d) / d + 1);
  }

  lemma DivIs(x: nat, d: nat, q: nat)
    requires d > 0 && q * d <= x < (q + 1) * d
    ensures x / d == q
  {
    DivStep(x, d);
    MulOrder(q + 1, x / d, d);
    MulOrder(x / d + 1, q, d);
  }

  lemma FlatHead(v: Volume, c: u16, cs: seq<u16>)
    requires Shaped(v) && Clus(v, c)
    ensures Flat(Secs(v.data, [c] + cs)) == Flat(v.data[c - 2]) + Flat(Secs(v.data, cs))
    ensures |Flat(v.data[c - 2])| == ClusterBytes(v)
  {
    assert ([c] + cs)[1..] == cs;
    FlatConcat(v.data[c - 2], Secs(v.data, cs));
  }

  // Taking what the current cluster has, and going on with the next.
  lemma RangeHead(v: Volume, c: u16, off: nat, size: nat)
    requires Shaped(v) && Clus(v, c) && size > 0 && off < ClusterBytes(v)
    ensures |Flat(v.data[c - 2])| == ClusterBytes(v)
    ensures off + size <= ClusterBytes(v) ==> Range(v, c, off, size) == Some(Flat(v.data[c - 2])[off..off + size])
    ensures off + size > ClusterBytes(v) ==>
      var rest := Range(v, Next(v, c), 0, off + size - ClusterBytes(v));
      Range(v, c, off, size) == if rest.None? then None else Some(Flat(v.data[c - 2])[off..] + rest.value)
  {
    CbPositive(v);
    var cb, next := ClusterBytes(v), Next(v, c);
    FlatHead(v, c, []);
    if off + size <= cb {
      DivIs(off + size - 1, cb, 0);
      assert Run(v, next, 0) == Some([]);
      assert Run(v, c, 1) == Some([c] + []) && [c] + [] == [c];
      RangeFits(v, [c], off, size);
      assert Flat(Secs(v.data, [])) == [];
      assert Flat(Secs(v.data, [c])) == Flat(v.data[c - 2]);
    } else {
      RangeBeyond(v, c, off, size);
    }
  }

  lemma RangeBeyond(v: Volume, c: u16, off: nat, size: nat)
    requires Shaped(v) && Clus(v, c) && off < ClusterBytes(v) < off + size
    ensures |Flat(v.data[c - 2])| == ClusterBytes(v)
    ensures var rest := Range(v, Next(v, c), 0, off + size - ClusterBytes(v));
      Range(v, c, off, size) == if rest.None? then None else Some(Flat(v.data[c - 2])[off..] + rest.value)
  {
    CbPositive(v);
    var cb, next := ClusterBytes(v), Next(v, c);
    hide Flat, Secs, ClusterBytes, Next;
    var more := off + size - cb;
    var n := Needed(cb, 0, more);
    FlatHead(v, c, []);
    NeededShift(cb, off, size);
    if Run(v, next, n).Some? {
      var cs := Run(v, next, n).value;
      RangeFits(v, cs, 0, more);
      RangeFits(v, [c] + cs, off, size);
      FlatHead(v, c, cs);
      SliceOver(Flat(v.data[c - 2]), Flat(Secs(v.data, cs)), off, size);
    }
  }

  lemma SliceOver(a: seq<byte>, b: seq<byte>, off: nat, size: nat)
    requires off <= |a| <= off + size <= |a| + |b|
    ensures (a + b)[off..off + size] == a[off..] + b[0..0 + (off + size - |a|)]
  {
  }

  // ----- the code -----

  // How much of a range lies in a cluster of cb bytes from offset on.
  function Take(cb: nat, off: nat, size: nat): nat
    requires off <= cb
  {
    if off + size <= cb then size else cb - off
  }

  // `memcpy` of bytes [b, b + n) of the cluster, behind its bytes [a, b) already there.
  method Append(out: array<byte>, at: nat, dst: nat, bytes: seq<byte>, ghost flat: seq<byte>, ghost a: nat,
                ghost b: nat)
    requires at <= dst && dst + |bytes| <= out.Length && a <= b && b + |bytes| <= |flat|
    requires out[at..dst] == flat[a..b] && bytes == flat[b..b + |bytes|]
    modifies out
    ensures out[at..dst + |bytes|] == flat[a..b + |bytes|] && out[..at] == old(out[..at])
  {
    forall k | 0 <= k < |bytes| {
      out[dst + k] := bytes[k];
    }
    assert out[at..dst] == flat[a..b] && out[dst..dst + |bytes|] == bytes;
    assert flat[a..b + |bytes|] == flat[a..b] + flat[b..b + |bytes|];
  }

  // One round of the sector loop.
  method ReadPart(fs: Fat16, clus: u16, secIndex: nat, secOff: nat, left: nat, out: array<byte>, at: nat, dst: nat,
                  ghost flat: seq<byte>, ghost a: nat, ghost b: nat) returns (rc: int, take: nat)
    requires fs.Mounted() && 2 <= clus < fs.geo.clusters + 2 && secIndex < fs.geo.spc && secOff < 512
    requires |fs.View().data| > clus - 2 && flat == Flat(fs.View().data[clus - 2])
    requires at <= dst && dst + left <= out.Length && a <= b == secIndex * 512 + secOff <= |flat|
    requires out[at..dst] == flat[a..b]
    modifies out, fs.disk`readFaults
    ensures rc <= 0 && fs.disk.readFaults >= old(fs.disk.readFaults) && out[..at] == old(out[..at])
    ensures rc == 0 <==> fs.disk.readFaults == old(fs.disk.readFaults)
    ensures take == (if 512 - secOff > left then left else 512 - secOff)
    ensures rc == 0 ==> b + take <= |flat| && out[at..dst + take] == flat[a..b + take]
  {
    hide ViewOf, Laid, Flat, DataSec, EvenClusters;
    ViewIsShaped(fs.geo, fs.disk.sectors);
    DataSectorIs(fs.geo, fs.disk.sectors, clus, secIndex);
    take := 512 - secOff;
    if take > left {
      take := left;
    }
    var buf;
    rc, buf := fs.disk.Read(DataSec(fs.geo, clus, secIndex));
    if rc != 0 {
      return;
    }
    FlatSector(fs.View().data[clus - 2], secIndex, secOff, take);
    Append(out, at, dst, buf[secOff..secOff + take], flat, a, b);
  }

  /** The sector loop: the part of the range that lies in one cluster, to out[at..]. */
  method ReadCluster(fs: Fat16, clus: u16, offset: nat, size: nat, out: array<byte>, at: nat) returns (rc: int)
    requires fs.Mounted() && 2 <= clus < fs.geo.clusters + 2
    requires offset < fs.geo.spc * 512 && at + size <= out.Length
    modifies out, fs.disk`readFaults
    ensures rc <= 0 && fs.disk.readFaults >= old(fs.disk.readFaults)
    ensures rc == 0 <==> fs.disk.readFaults == old(fs.disk.readFaults)
    ensures out[..at] == old(out[..at])
    ensures |fs.View().data| > clus - 2 && |Flat(fs.View().data[clus - 2])| == fs.geo.spc * 512
    ensures Take(fs.geo.spc * 512, offset, size) <= size
    ensures rc == 0 ==> var n := Take(fs.geo.spc * 512, offset, size);
      out[at..at + n] == Flat(fs.View().data[clus - 2])[offset..offset + n]
  {
    hide ViewOf, Laid, Flat, DataSec, EvenClusters;
    ViewIsShaped(fs.geo, fs.disk.sectors);
    ghost var secs := fs.View().data[clus - 2];
    ghost var flat, done := Flat(secs), 0;
    FlatLength(secs);
    var secIndex, secOff := offset / 512, offset % 512;
    var left, dst := size, at;
    while secIndex < fs.geo.spc && left > 0
      invariant fs.Mounted() && |fs.View().data| > clus - 2 && fs.View().data[clus - 2] == secs
      invariant secIndex <= fs.geo.spc && 0 <= secOff < 512
      invariant done <= size && left == size - done && dst == at + done
      invariant left > 0 ==> secIndex * 512 + secOff == offset + done
      invariant offset + done <= fs.geo.spc * 512 == |flat|
      invariant fs.disk.readFaults == old(fs.disk.readFaults)
      invariant out[..at] == old(out[..at])
      invariant out[at..dst] == flat[offset..offset + done]
    {
      var take;
      rc, take := ReadPart(fs, clus, secIndex, secOff, left, out, at, dst, flat, offset, offset + done);
      if rc != 0 {
        return;
      }
      done := done + take;
      dst := dst + take;
      left := left - take;
      secOff := 0;
      secIndex := secIndex + 1;
    }
    return 0;
  }

  lemma FlatLength(secs: seq<Sector>)
    ensures |Flat(secs)| == |secs| * 512
  {
  }

  // The k-th cluster of the chain from c.
  function Follow(v: Volume, c: u16, k: nat): (r: Option<u16>)
    requires Shaped(v)
    ensures r.Some? ==> Clus(v, r.value)
    decreases k
  {
    if !Clus(v, c) then None else if k == 0 then Some(c) else Follow(v, Next(v, c), k - 1)
  }

  lemma {:induction false} FollowStep(v: Volume, c: u16, k: nat)
    requires Shaped(v) && Follow(v, c, k).Some?
    ensures Follow(v, c, k + 1) == Follow(v, Next(v, Follow(v, c, k).value), 0)
    decreases k
  {
    if k > 0 {
      FollowStep(v, Next(v, c), k - 1);
    }
  }

  // The cluster byte `off` of the chain from c lies in, and its place there.
  function StartClus(v: Volume, c: u16, off: nat): Option<u16>
    requires Shaped(v)
  {
    CbPositive(v);
    Follow(v, c, Quot(off, ClusterBytes(v)))
  }

  function StartOff(v: Volume, off: nat): nat
    requires Shaped(v)
  {
    CbPositive(v);
    off - Quot(off, ClusterBytes(v)) * ClusterBytes(v)
  }

  lemma StartIs(v: Volume, c: u16, off: nat, k: nat, offset: nat)
    requires Shaped(v)
    requires off == k * ClusterBytes(v) + offset
    ensures offset < ClusterBytes(v) ==> StartClus(v, c, off) == Follow(v, c, k) && StartOff(v, off) == offset
    ensures Follow(v, c, k).None? ==> StartClus(v, c, off).None?
  {
    hide Follow, ClusterBytes;
    CbPositive(v);
    QuotOrder(off, ClusterBytes(v), k, offset);
    if Follow(v, c, k).None? {
      FollowNone(v, c, k, Quot(off, ClusterBytes(v)));
    }
  }

  lemma QuotOrder(x: nat, d: nat, k: nat, r: nat)
    requires d > 0 && x == k * d + r
    ensures k <= Quot(x, d) && (r < d ==> Quot(x, d) == k)
  {
    var q := Quot(x, d);
    A.Distrib(q, 1, d);
    A.Distrib(k, 1, d);
    A.MulOrder(k, q + 1, d);
    if r < d {
      A.MulOrder(q, k + 1, d);
    }
  }

  // A range that starts in or beyond an end mark or a broken link is not there.
  lemma BadRange(v: Volume, c: u16, off: nat, size: nat)
    requires Shaped(v) && !Clus(v, c) && size > 0
    ensures Range(v, c, off, size) == None
  {
    CbPositive(v);
  }

  lemma ViewClusters(g: Geom, img: Image, c: u16)
    requires Laid(g, img) && Clus(ViewOf(g, img), c)
    ensures ClusterBytes(ViewOf(g, img)) == g.spc * 512 > 0 && 2 <= c < g.clusters + 2
    ensures c < g.fatsz * CELLS_PER_SECTOR && |ViewOf(g, img).data| > c - 2
  {
  }

  // The k-th cluster of the chain links to no other.
  ghost predicate StopsAt(v: Volume, c: u16, k: nat)
    requires Shaped(v)
  {
    Follow(v, c, k).Some? && !Clus(v, Next(v, Follow(v, c, k).value))
  }

  // What the driver answers there: among the clusters before the range or in it, at an end mark or a broken link.
  function StopCode(v: Volume, c: u16, off: nat, k: nat): int
    requires Shaped(v) && Follow(v, c, k).Some?
  {
    CbPositive(v);
    var ends := IsEoc(Next(v, Follow(v, c, k).value));
    if k < Quot(off, ClusterBytes(v)) then if ends then -4 else -5 else if ends then -7 else -8
  }

  ghost predicate Stopped(v: Volume, c: u16, off: nat, rc: int)
    requires Shaped(v)
  {
    exists k: nat :: StopsAt(v, c, k) && rc == StopCode(v, c, off, k)
  }

  lemma StopsHere(v: Volume, first: u16, off: nat, k: nat, c: u16)
    requires Shaped(v) && Follow(v, first, k) == Some(c) && (Next(v, c) < 2 || IsEoc(Next(v, c)))
    ensures ClusterBytes(v) > 0
    ensures k < Quot(off, ClusterBytes(v)) ==> Stopped(v, first, off, if IsEoc(Next(v, c)) then -4 else -5)
    ensures k >= Quot(off, ClusterBytes(v)) ==> Stopped(v, first, off, if IsEoc(Next(v, c)) then -7 else -8)
  {
    hide Follow, ClusterBytes, Next, Quot;
    CbPositive(v);
    assert StopsAt(v, first, k);
  }

  lemma StartFollows(v: Volume, first: u16, off: nat)
    requires Shaped(v)
    ensures ClusterBytes(v) > 0 && StartClus(v, first, off) == Follow(v, first, Quot(off, ClusterBytes(v)))
  {
  }

  // A chain that stops before the range, with `offset` bytes to skip behind the last cluster.
  lemma StopsBefore(v: Volume, first: u16, off: nat, k: nat, c: u16, offset: nat, size: nat)
    requires Shaped(v) && Follow(v, first, k) == Some(c) && (Next(v, c) < 2 || IsEoc(Next(v, c)))
    requires off == (k + 1) * ClusterBytes(v) + offset && size > 0
    ensures Stopped(v, first, off, if IsEoc(Next(v, c)) then -4 else -5)
    ensures Range(v, Next(v, c), offset, size).None? && StartClus(v, first, off).None?
  {
    hide Follow, ClusterBytes, Next, Quot, Range, StartClus, Stopped;
    CbPositive(v);
    QuotOrder(off, ClusterBytes(v), k + 1, offset);
    FollowStep(v, first, k);
    assert Follow(v, Next(v, c), 0).None? by { FollowsNot(v, Next(v, c)); }
    StopsHere(v, first, off, k, c);
    BadRange(v, Next(v, c), offset, size);
    StartIs(v, first, off, k + 1, offset);
  }

  // One round of the first loop.
  lemma SkipStep(v: Volume, first: u16, off: nat, k: nat, c: u16, offset: nat, size: nat)
    requires Shaped(v) && Follow(v, first, k) == Some(c) && off == k * ClusterBytes(v) + offset
    requires offset >= ClusterBytes(v) && size > 0 && (NoWild(v) || Range(v, c, offset, size).Some?)
    ensures off == (k + 1) * ClusterBytes(v) + (offset - ClusterBytes(v))
    ensures Range(v, c, offset, size) == Range(v, Next(v, c), offset - ClusterBytes(v), size)
    ensures Next(v, c) < 2 || IsEoc(Next(v, c)) ==>
      Stopped(v, first, off, if IsEoc(Next(v, c)) then -4 else -5)
      && Range(v, c, offset, size).None? && StartClus(v, first, off).None?
    ensures Next(v, c) >= 2 && !IsEoc(Next(v, c)) ==>
      Clus(v, Next(v, c)) && Follow(v, first, k + 1) == Some(Next(v, c))
  {
    hide Follow, ClusterBytes, Next, Quot, Range, StartClus, Stopped;
    var next := Next(v, c);
    A.Distrib(k, 1, ClusterBytes(v));
    RangeShift(v, c, offset, size);
    FollowStep(v, first, k);
    if next < 2 || IsEoc(next) {
      StopsBefore(v, first, off, k, c, offset - ClusterBytes(v), size);
    } else {
      if Range(v, next, offset - ClusterBytes(v), size).Some? {
        RangeGoesOn(v, next, offset - ClusterBytes(v), size);
      }
      FollowNow(v, next);
    }
  }

  /** The first loop: to the cluster the range starts in. */
  method SkipClusters(fs: Fat16, first: u16, off: nat, ghost size: nat) returns (rc: int, clus: u16, offset: nat)
    requires fs.Mounted() && Shaped(fs.View()) && Clus(fs.View(), first) && size > 0
    requires NoWild(fs.View()) || Range(fs.View(), first, off, size).Some?
    modifies fs.disk`readFaults
    ensures rc <= 0 && fs.disk.readFaults >= old(fs.disk.readFaults)
    ensures rc == 0 ==>
      && Clus(fs.View(), clus) && offset == StartOff(fs.View(), off) < ClusterBytes(fs.View())
      && StartClus(fs.View(), first, off) == Some(clus)
      && Range(fs.View(), first, off, size) == Range(fs.View(), clus, offset, size)
    ensures rc != 0 ==> Range(fs.View(), first, off, size).None? || fs.disk.readFaults > old(fs.disk.readFaults)
    ensures rc != 0 ==> StartClus(fs.View(), first, off).None? || fs.disk.readFaults > old(fs.disk.readFaults)
    ensures rc != 0 ==> Stopped(fs.View(), first, off, rc) || fs.disk.readFaults > old(fs.disk.readFaults)
  {
    hide ViewOf, Laid, Range, Run, Next, StartClus, StartOff, ClusterBytes, Stopped, Quot, Follow, NoWild;
    ghost var v, k := fs.View(), 0;
    ViewClusters(fs.geo, fs.disk.sectors, first);
    ghost var cb := ClusterBytes(v);
    var clusBytes := fs.geo.spc * 512;
    clus, offset := first, off;
    FollowNow(v, first);
    while offset >= clusBytes
      invariant fs.Mounted() && fs.View() == v && Clus(v, clus) && fs.disk.readFaults >= old(fs.disk.readFaults)
      invariant off == k * cb + offset && Follow(v, first, k) == Some(clus)
      invariant Range(v, first, off, size) == Range(v, clus, offset, size)
      invariant NoWild(v) || Range(v, first, off, size).Some?
      decreases offset
    {
      ViewClusters(fs.geo, fs.disk.sectors, clus);
      SkipStep(v, first, off, k, clus, offset, size);
      offset := offset - clusBytes;
      var nxt;
      rc, nxt := fs.NextClus(clus);
      if rc != 0 {
        return -3, clus, offset;
      }
      if IsEoc(nxt) {
        return -4, clus, offset;
      }
      if nxt < 2 {
        return -5, clus, offset;
      }
      clus := nxt;
      k := k + 1;
    }
    StartIs(v, first, off, k, offset);
    return 0, clus, offset;
  }

  lemma {:induction false} FollowNone(v: Volume, c: u16, k: nat, q: nat)
    requires Shaped(v) && Follow(v, c, k).None? && k <= q
    ensures Follow(v, c, q).None?
    decreases k
  {
    if k > 0 && Clus(v, c) {
      FollowNone(v, Next(v, c), k - 1, q - 1);
    }
  }

  function Join(sofar: seq<byte>, rest: Option<seq<byte>>): Option<seq<byte>> {
    if rest.None? then None else Some(sofar + rest.value)
  }

  // Where a readable range goes on, it goes on in a cluster.
  lemma RangeGoesOn(v: Volume, c: u16, off: nat, size: nat)
    requires Shaped(v) && Range(v, c, off, size).Some? && size > 0
    ensures Clus(v, c)
  {
    CbPositive(v);
  }

  /**
   The driver's file read with the step to the next cluster in place: exactly the bytes of
   the range, or an error when the chain is too short or broken.
   */
  method ReadFile(fs: Fat16, first: u16, off: nat, size: nat, out: array<byte>) returns (rc: int)
    requires fs.Mounted() && Shaped(fs.View()) && (first < 2 || size == 0 || Clus(fs.View(), first))
      && size <= out.Length
    requires NoWild(fs.View()) || Range(fs.View(), first, off, size).Some?
    modifies out, fs.disk`readFaults
    ensures fs.disk.readFaults >= old(fs.disk.readFaults)
    ensures rc == 0 ==> Range(fs.View(), first, off, size) == Some(out[..size])
    ensures rc != 0 ==> Range(fs.View(), first, off, size).None? || fs.disk.readFaults > old(fs.disk.readFaults)
    ensures rc != 0 ==>
      || fs.disk.readFaults > old(fs.disk.readFaults)
      || (size > 0 && if first < 2 then rc == -2 else Stopped(fs.View(), first, off, rc))
  {
    hide ViewOf, Laid, Range, Run, Next, Flat, ClusterBytes, WordAt, Guarded, Stopped, Follow, StartClus, Quot;
    ghost var v := fs.View();
    if size == 0 {
      EmptyRange(v, first, off);
      return 0;
    }
    if first < 2 {
      BadRange(v, first, off, size);
      return -2;
    }
    ghost var want := Range(v, first, off, size);
    var clus: u16, offset: nat;
    rc, clus, offset := SkipClusters(fs, first, off, size);
    if rc != 0 {
      return;
    }
    CbPositive(v);
    var left: nat, dst: nat := size, 0;
    EmptyPrefix(out, want);
    StartFollows(v, first, off);
    ghost var k: nat := Quot(off, ClusterBytes(v));
    while left > 0
      invariant fs.Mounted() && fs.View() == v && Clus(v, clus) && offset < ClusterBytes(v)
      invariant fs.disk.readFaults >= old(fs.disk.readFaults) && dst + left == size
      invariant want == Join(out[..dst], Range(v, clus, offset, left)) && (NoWild(v) || want.Some?)
      invariant left == 0 ==> want == Some(out[..size])
      invariant Follow(v, first, k) == Some(clus) && k >= Quot(off, ClusterBytes(v))
      decreases left
    {
      if clus < 2 || IsEoc(clus) {
        assert false;
        return -5;
      }
      ViewClusters(fs.geo, fs.disk.sectors, clus);
      RangeHead(v, clus, offset, left);
      ghost var sofar := out[..dst];
      rc := ReadCluster(fs, clus, offset, left, out, dst);
      if rc != 0 {
        return;
      }
      var n := Take(fs.geo.spc * 512, offset, left);
      assert out[..dst + n] == sofar + out[dst..dst + n];
      WholeTail(Flat(v.data[clus - 2]), offset, n);
      ghost var was := offset;
      dst, left, offset := dst + n, left - n, 0;
      if left == 0 {
        break;
      }
      JoinMore(sofar, Flat(v.data[clus - 2])[was..], Range(v, Next(v, clus), 0, left));
      var nxt;
      rc, nxt := fs.NextClus(clus);
      if rc != 0 {
        return -6;
      }
      FollowStep(v, first, k);
      if nxt == Next(v, clus) && (nxt < 2 || IsEoc(nxt)) {
        StopsHere(v, first, off, k, clus);
      }
      if IsEoc(nxt) {
        BadRange(v, nxt, 0, left);
        return -7;
      }
      if nxt < 2 {
        if nxt == Next(v, clus) {
          BadRange(v, nxt, 0, left);
        }
        return -8;
      }
      if Range(v, nxt, 0, left).Some? {
        RangeGoesOn(v, nxt, 0, left);
      }
      assert Follow(v, nxt, 0) == Some(nxt) by { FollowNow(v, nxt); }
      clus, k := nxt, k + 1;
    }
    return 0;
  }

  lemma FollowsNot(v: Volume, c: u16)
    requires Shaped(v) && !Clus(v, c)
    ensures Follow(v, c, 0) == None
  {
  }

  lemma FollowNow(v: Volume, c: u16)
    requires Shaped(v) && Clus(v, c)
    ensures Follow(v, c, 0) == Some(c)
  {
  }

  lemma WholeTail(f: seq<byte>, at: nat, n: nat)
    requires at + n <= |f|
    ensures at + n == |f| ==> f[at..at + n] == f[at..]
  {
  }

  lemma EmptyRange(v: Volume, c: u16, off: nat)
    requires Shaped(v)
    ensures Range(v, c, off, 0) == Some([])
  {
  }

  lemma EmptyPrefix(out: array<byte>, r: Option<seq<byte>>)
    ensures r == Join(out[..0], r)
  {
    assert r.Some? ==> out[..0] + r.value == r.value;
  }

  lemma JoinMore(a: seq<byte>, b: seq<byte>, rest: Option<seq<byte>>)
    ensures Join(a, Join(b, rest)) == Join(a + b, rest)
  {
    assert rest.Some? ==> a + (b + rest.value) == (a + b) + rest.value;
  }

  // ----- the loop as shipped -----

  // `bytes` is what the shipped loop delivers: one cluster, read over and over.
  ghost predicate OneClusterOver(v: Volume, first: u16, off: nat, size: nat, bytes: seq<byte>)
    requires Shaped(v)
  {
    && |bytes| == size && StartClus(v, first, off).Some?
    && var c := StartClus(v, first, off).value;
       Clus(v, c) && Cycled(Flat(v.data[c - 2]), StartOff(v, off), bytes)
  }

  // `bytes` runs through `f` from `at`, and from its start again whenever it ends.
  ghost predicate Cycled(f: seq<byte>, at: nat, bytes: seq<byte>)
    decreases |bytes|
  {
    if at + |bytes| <= |f| || |f| <= at then at + |bytes| <= |f| && bytes == f[at..at + |bytes|]
    else bytes[..|f| - at] == f[at..] && Cycled(f, 0, bytes[|f| - at..])
  }

  lemma {:induction false} CycledMore(f: seq<byte>, at: nat, bytes: seq<byte>, rest: seq<byte>)
    requires at < |f| && |bytes| > 0 && Cycled(f, at, bytes) && CycleEnd(|f|, at, |bytes|)
    requires |rest| <= |f| && rest == f[..|rest|]
    ensures Cycled(f, at, bytes + rest)
    decreases |bytes|
  {
    var all := bytes + rest;
    if at + |bytes| > |f| {
      assert all[..|f| - at] == bytes[..|f| - at];
      assert all[|f| - at..] == bytes[|f| - at..] + rest;
      CycledMore(f, 0, bytes[|f| - at..], rest);
    } else {
      assert all[..|f| - at] == bytes && all[|f| - at..] == rest;
      assert rest == [] ==> all == bytes;
    }
  }

  // n bytes from `at` on end exactly at the end of a block of m.
  predicate CycleEnd(m: nat, at: nat, n: nat)
    decreases n
  {
    if at >= m then false else if at + n <= m then at + n == m else CycleEnd(m, 0, n - (m - at))
  }

  lemma {:induction false} CycleEndMore(m: nat, at: nat, n: nat)
    requires at < m && n > 0 && CycleEnd(m, at, n)
    ensures CycleEnd(m, at, n + m)
    decreases n
  {
    if at + n > m {
      CycleEndMore(m, 0, n - (m - at));
    }
  }

  // One turn through the cluster in hand.
  method ReadTurn(fs: Fat16, clus: u16, offset: nat, left: nat, out: array<byte>, dst: nat, ghost f: seq<byte>,
                  ghost at: nat)
    returns (rc: int, n: nat)
    requires fs.Mounted() && 2 <= clus < fs.geo.clusters + 2 && |fs.View().data| > clus - 2
    requires f == Flat(fs.View().data[clus - 2]) && |f| == fs.geo.spc * 512
    requires offset < |f| && at < |f| && left > 0 && dst + left <= out.Length && (dst == 0 ==> offset == at)
    requires dst > 0 ==> offset == 0 && Cycled(f, at, out[..dst]) && CycleEnd(|f|, at, dst)
    modifies out, fs.disk`readFaults
    ensures fs.disk.readFaults >= old(fs.disk.readFaults)
    ensures rc == 0 <==> fs.disk.readFaults == old(fs.disk.readFaults)
    ensures n == Take(|f|, offset, left) <= left && (n < left ==> offset + left > |f|)
    ensures rc == 0 ==> n > 0 && Cycled(f, at, out[..dst + n]) && (n < left ==> CycleEnd(|f|, at, dst + n))
  {
    hide ViewOf, Laid, Flat, Cycled, CycleEnd, Guarded;
    ghost var sofar := out[..dst];
    n := Take(fs.geo.spc * 512, offset, left);
    rc := ReadCluster(fs, clus, offset, left, out, dst);
    if rc == 0 {
      assert out[..dst + n] == sofar + out[dst..dst + n];
      Turn(f, at, sofar, out[dst..dst + n], left);
    }
  }

  /** Why it fails: no such chain, one that stops before the range, or one that does behind its start cluster. */
  ghost predicate ShippedFails(v: Volume, first: u16, off: nat, size: nat, rc: int)
    requires Shaped(v)
  {
    && (if first < 2 then rc == -2 else Stopped(v, first, off, rc))
    && (StartClus(v, first, off).Some? ==>
          StartOff(v, off) + size > ClusterBytes(v)
          && Follow(v, Next(v, StartClus(v, first, off).value), 0).None?)
  }

  lemma FailsAtOnce(v: Volume, first: u16, off: nat, size: nat)
    requires Shaped(v) && first < 2
    ensures ShippedFails(v, first, off, size, -2)
  {
    StartIs(v, first, off, 0, off);
  }

  lemma FailsBefore(v: Volume, first: u16, off: nat, size: nat, rc: int)
    requires Shaped(v) && first >= 2 && Stopped(v, first, off, rc) && StartClus(v, first, off).None?
    ensures ShippedFails(v, first, off, size, rc)
  {
    hide Stopped, StartClus, StartOff, Follow, ClusterBytes;
  }

  lemma FailsInStart(v: Volume, first: u16, off: nat, size: nat, c: u16)
    requires Shaped(v) && first >= 2 && StartClus(v, first, off) == Some(c) && (Next(v, c) < 2 || IsEoc(Next(v, c)))
    requires StartOff(v, off) + size > ClusterBytes(v)
    ensures ShippedFails(v, first, off, size, if IsEoc(Next(v, c)) then -7 else -8)
  {
    hide Stopped, StartClus, StartOff, Quot, ClusterBytes, Next;
    StartFollows(v, first, off);
    StopsHere(v, first, off, Quot(off, ClusterBytes(v)), c);
  }

  /**
   The read loop as it stands, without `clus = nxt`: it repeats the cluster the range
   starts in. It still follows that cluster's link each time round, so a range that needs
   a second cluster fails where the chain ends there.
   */
  method ReadFileShipped(fs: Fat16, first: u16, off: nat, size: nat, out: array<byte>) returns (rc: int)
    requires fs.Mounted() && NoWild(fs.View()) && (first < 2 || size == 0 || Clus(fs.View(), first))
      && size <= out.Length
    modifies out, fs.disk`readFaults
    ensures fs.disk.readFaults >= old(fs.disk.readFaults)
    ensures rc == 0 && size > 0 ==> OneClusterOver(fs.View(), first, off, size, out[..size])
    ensures size == 0 ==> rc == 0
    ensures rc != 0 ==>
      fs.disk.readFaults > old(fs.disk.readFaults) || ShippedFails(fs.View(), first, off, size, rc)
  {
    hide ViewOf, Laid, Range, Run, Next, Flat, ClusterBytes, StartClus, StartOff, Cycled, CycleEnd, WordAt, Guarded,
         Stopped, Quot, NoWild, ShippedFails, Follow;
    ghost var v := fs.View();
    ViewIsShaped(fs.geo, fs.disk.sectors);
    if size == 0 {
      return 0;
    }
    if first < 2 {
      FailsAtOnce(v, first, off, size);
      return -2;
    }
    var clus: u16, offset: nat;
    rc, clus, offset := SkipClusters(fs, first, off, size);
    if rc != 0 {
      if fs.disk.readFaults == old(fs.disk.readFaults) {
        FailsBefore(v, first, off, size, rc);
      }
      return;
    }
    CbPositive(v);
    ViewClusters(fs.geo, fs.disk.sectors, clus);
    ghost var f, at := Flat(v.data[clus - 2]), offset;
    FlatOfCluster(v, clus);
    var left: nat, dst: nat := size, 0;
    while left > 0
      invariant fs.Mounted() && fs.View() == v && Clus(v, clus) && offset < ClusterBytes(v) == |f|
      invariant fs.disk.readFaults >= old(fs.disk.readFaults) && dst + left == size
      invariant dst == 0 ==> offset == at
      invariant dst > 0 ==> Cycled(f, at, out[..dst])
      invariant dst > 0 && left > 0 ==> offset == 0 && CycleEnd(|f|, at, dst)
      invariant dst > 0 && left > 0 ==> at + size > |f|
      decreases left
    {
      var n;
      rc, n := ReadTurn(fs, clus, offset, left, out, dst, f, at);
      if rc != 0 {
        return;
      }
      dst, left, offset := dst + n, left - n, 0;
      if left == 0 {
        break;
      }
      var nxt;
      rc, nxt := fs.NextClus(clus);
      if rc != 0 {
        return -6;
      }
      if nxt == Next(v, clus) && (nxt < 2 || IsEoc(nxt)) {
        FailsInStart(v, first, off, size, clus);
      }
      if IsEoc(nxt) {
        return -7;
      }
      if nxt < 2 {
        return -8;
      }
    }
    return 0;
  }

  lemma FlatOfCluster(v: Volume, c: u16)
    requires Shaped(v) && Clus(v, c)
    ensures |Flat(v.data[c - 2])| == ClusterBytes(v)
  {
  }

  // One more turn through the same cluster.
  lemma Turn(f: seq<byte>, at: nat, sofar: seq<byte>, part: seq<byte>, left: nat)
    requires at < |f| && left > 0
    requires sofar != [] ==> Cycled(f, at, sofar) && CycleEnd(|f|, at, |sofar|)
    requires var from := if sofar == [] then at else 0;
      |part| == Take(|f|, from, left) && part == f[from..from + |part|]
    ensures Cycled(f, at, sofar + part)
    ensures |part| < left ==> CycleEnd(|f|, at, |sofar + part|)
  {
    if sofar == [] {
      assert sofar + part == part;
    } else {
      CycledMore(f, at, sofar, part);
      if |part| < left {
        CycleEndMore(|f|, at, |sofar|);
      }
    }
  }

  /** Within one cluster the shipped loop is right. */
  lemma ShippedWithinCluster(v: Volume, first: u16, off: nat, size: nat, bytes: seq<byte>)
    requires Shaped(v) && Clus(v, first) && size > 0 && StartOff(v, off) + size <= ClusterBytes(v)
    requires OneClusterOver(v, first, off, size, bytes)
    ensures Range(v, first, off, size) == Some(bytes)
  {
    CbPositive(v);
    RangeFromStart(v, first, off, size);
    var c := StartClus(v, first, off).value;
    FlatOfCluster(v, c);
    RangeHead(v, c, StartOff(v, off), size);
  }

  lemma {:induction false} RangeFromStart(v: Volume, c: u16, off: nat, size: nat)
    requires Shaped(v) && size > 0
    ensures StartClus(v, c, off).Some? ==>
      Range(v, c, off, size) == Range(v, StartClus(v, c, off).value, StartOff(v, off), size)
    ensures StartClus(v, c, off).None? ==> Range(v, c, off, size) == None
    decreases off
  {
    hide Range, Run, Flat, StartClus, StartOff, ClusterBytes, Next;
    CbPositive(v);
    var cb := ClusterBytes(v);
    StartSteps(v, c, off);
    if !Clus(v, c) {
      BadRange(v, c, off, size);
    } else if off >= cb {
      RangeShift(v, c, off, size);
      RangeFromStart(v, Next(v, c), off - cb, size);
    }
  }

  // Where a range starts, one cluster at a time.
  lemma StartSteps(v: Volume, c: u16, off: nat)
    requires Shaped(v)
    ensures !Clus(v, c) ==> StartClus(v, c, off).None?
    ensures Clus(v, c) && off < ClusterBytes(v) ==> StartClus(v, c, off) == Some(c) && StartOff(v, off) == off
    ensures Clus(v, c) && off >= ClusterBytes(v) ==>
      StartClus(v, c, off) == StartClus(v, Next(v, c), off - ClusterBytes(v))
    ensures off >= ClusterBytes(v) ==> StartOff(v, off) == StartOff(v, off - ClusterBytes(v))
  {
    hide ClusterBytes, Next, Quot;
    CbPositive(v);
    QuotSteps(off, ClusterBytes(v));
  }

  lemma QuotSteps(x: nat, d: nat)
    requires d > 0
    ensures if x < d then Quot(x, d) == 0 else Quot(x, d) == 1 + Quot(x - d, d)
    ensures x >= d ==> Quot(x, d) * d == Quot(x - d, d) * d + d
  {
    if x >= d {
      A.Distrib(Quot(x - d, d), 1, d);
    }
  }

  // A FAT of one sector, and two clusters of one sector each, the second following the first.
  function TwoClusters(): Volume {
    Volume([seq(CELLS_PER_SECTOR, c => if c == 2 then 3 else 0xFFFF)], [], [[ZeroSector()], [OnesSector()]])
  }

  function OnesSector(): Sector {
    seq(512, _ => 1)
  }

  // A medium with that volume.
  function TwoClustersMedium(): Image {
    [PlainBoot(0), seq(512, i => if i == 4 then 3 else if i == 5 then 0 else 0xFF), ZeroSector(), OnesSector()]
  }

  const TWO_CLUSTERS := Geom(1, 1, 0, 1, 1, 2, 2, 2)

  /** The volume is what a medium holds that mounts. */
  lemma TwoClustersIsMounted()
    ensures MountCode(TwoClustersMedium()[0]) == 0 && GeomOf(TwoClustersMedium()[0], 0, 2) == TWO_CLUSTERS
    ensures Laid(TWO_CLUSTERS, TwoClustersMedium()) && ViewOf(TWO_CLUSTERS, TwoClustersMedium()) == TwoClusters()
  {
    var g, img := TWO_CLUSTERS, TwoClustersMedium();
    forall c: nat | c < 256
      ensures Cell(g, img, 0, c) == TwoClusters().fat[0][c]
    {
      assert FatSec(g, 0, c) == 1;
    }
    assert FatOf(g, img, 0) == TwoClusters().fat[0];
    assert ClusterOf(g, img, 0) == [ZeroSector()] && ClusterOf(g, img, 1) == [OnesSector()];
    assert ViewOf(g, img).fat == TwoClusters().fat && ViewOf(g, img).root == [];
  }

  lemma TwoClustersShape()
    ensures var v := TwoClusters();
      && NoWild(v) && Clus(v, 2) && Clus(v, 3) && Next(v, 2) == 3 && Next(v, 3) == 0xFFFF && ClusterBytes(v) == 512
  {
  }

  // What the file really holds.
  lemma TwoClustersRange()
    ensures NoWild(TwoClusters()) && Clus(TwoClusters(), 2) && Range(TwoClusters(), 2, 0, 1024).Some?
    ensures Range(TwoClusters(), 2, 0, 1024).value[512] == 1
  {
    hide Range, Run;
    var v := TwoClusters();
    TwoClustersShape();
    RangeHead(v, 2, 0, 1024);
    RangeHead(v, 3, 0, 512);
    assert Flat([OnesSector()])[0] == 1;
  }

  // What the shipped loop delivers.
  lemma TwoClustersCycled(bytes: seq<byte>)
    requires |bytes| == 1024 && Cycled(Flat([ZeroSector()]), 0, bytes)
    ensures bytes[512] == 0
  {
    var z := Flat([ZeroSector()]);
    assert Cycled(z, 0, bytes[512..]);
    assert bytes[512] == bytes[512..][0] == z[0];
  }

  /** Across a cluster boundary it is wrong: reading both clusters of a two-cluster file. */
  lemma ShippedAcrossClusters(bytes: seq<byte>)
    ensures NoWild(TwoClusters()) && Clus(TwoClusters(), 2) && Range(TwoClusters(), 2, 0, 1024).Some?
    ensures OneClusterOver(TwoClusters(), 2, 0, 1024, bytes) ==> Range(TwoClusters(), 2, 0, 1024) != Some(bytes)
  {
    hide Range, Run, Cycled, Flat;
    TwoClustersShape();
    TwoClustersRange();
    StartIs(TwoClusters(), 2, 0, 0, 0);
    if OneClusterOver(TwoClusters(), 2, 0, 1024, bytes) {
      TwoClustersCycled(bytes);
    }
  }
}
