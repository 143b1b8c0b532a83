/** Strictly ascending lists of page addresses, and the sets they stand for. */
module PageList {

  const PAGE := 4096

  function AlignDown(x: nat): (r: nat)
    ensures r % PAGE == 0 && r <= x < r + PAGE
  {
    x / PAGE * PAGE
  }

  function AlignUp(x: nat): (r: nat)
    ensures r % PAGE == 0 && x <= r < x + PAGE
  {
    (x + PAGE - 1) / PAGE * PAGE
  }

  // Strictly ascending, page-aligned, without page 0.
  ghost predicate FreeList(s: seq<nat>) {
    && (forall i, j :: 0 <= i < j < |s| ==> s[i] < s[j])
    && (forall i :: 0 <= i < |s| ==> s[i] > 0 && s[i] % PAGE == 0)
  }

  ghost function Pages(s: seq<nat>): set<nat> {
    set x | x in s
  }

  // The n pages from base on.
  ghost function RunOf(base: nat, n: nat): set<nat> {
    set p | base <= p < base + n * PAGE && p % PAGE == 0
  }

  lemma RunStep(base: nat, n: nat, p: nat)
    requires base % PAGE == 0 && n > 0
    ensures p in RunOf(base, n) <==> p in RunOf(base, n - 1) || p == base + (n - 1) * PAGE
  {
    var last := base + (n - 1) * PAGE;
    assert last % PAGE == 0;
    if last < p && p % PAGE == 0 {
      AlignedStep(last, p);
    }
  }

  lemma AlignedStep(a: nat, b: nat)
    requires a % PAGE == 0 && b % PAGE == 0 && a < b
    ensures a + PAGE <= b
  {
  }

  lemma {:induction false} RunSize(base: nat, n: nat)
    requires base % PAGE == 0
    ensures |RunOf(base, n)| == n
  {
    if n > 0 {
      RunSize(base, n - 1);
      var last := base + (n - 1) * PAGE;
      forall p
        ensures p in RunOf(base, n) <==> p in RunOf(base, n - 1) + {last}
      {
        if p >= 0 { RunStep(base, n, p); }
      }
      assert last !in RunOf(base, n - 1);
      assert RunOf(base, n) == RunOf(base, n - 1) + {last};
    } else {
      assert RunOf(base, n) == {};
    }
  }

  // A run of n pages at consecutive places of the list, from place i.
  ghost predicate RunAt(s: seq<nat>, i: nat, n: nat) {
    i + n <= |s| && forall j :: i <= j < i + n ==> s[j] == s[i] + (j - i) * PAGE
  }

  // Neighbouring pages stand at neighbouring places.
  lemma NoPageBetween(s: seq<nat>, i: nat, k: nat)
    requires FreeList(s) && i < |s| && k < |s| && s[k] == s[i] + PAGE
    ensures k == i + 1
  {
    assert k > i;
    AlignedStep(s[i], s[i + 1]);
  }

  /** In a free list, a run of present pages stands at consecutive places. */
  lemma {:induction false} RunIsConsecutive(s: seq<nat>, base: nat, n: nat, i: nat)
    requires FreeList(s) && n > 0 && RunOf(base, n) <= Pages(s)
    requires i < |s| && s[i] == base
    ensures RunAt(s, i, n)
    decreases n
  {
    if n > 1 {
      assert RunOf(base, n - 1) <= RunOf(base, n);
      RunIsConsecutive(s, base, n - 1, i);
      var p := base + (n - 1) * PAGE;
      assert p in RunOf(base, n);
      var k :| 0 <= k < |s| && s[k] == p;
      NoPageBetween(s, i + (n - 2), k);
    }
  }

  /** Runs in the set of pages are exactly the runs of the list. */
  lemma RunInList(s: seq<nat>, i: nat, n: nat)
    requires FreeList(s) && n > 0 && i < |s|
    ensures RunOf(s[i], n) <= Pages(s) <==> RunAt(s, i, n)
  {
    if RunOf(s[i], n) <= Pages(s) {
      RunIsConsecutive(s, s[i], n, i);
    } else if RunAt(s, i, n) {
      forall p | p in RunOf(s[i], n)
        ensures p in s
      {
        var j := (p - s[i]) / PAGE;
        assert s[i + j] == p;
      }
    }
  }

  // Cutting places i .. i + n out of a list.
  function Cut(s: seq<nat>, i: nat, n: nat): seq<nat>
    requires i + n <= |s|
  {
    s[..i] + s[i + n..]
  }

  lemma CutIsFreeList(s: seq<nat>, i: nat, n: nat)
    requires FreeList(s) && i + n <= |s|
    ensures FreeList(Cut(s, i, n))
    ensures forall k :: 0 <= k < |s| ==> (s[k] in Cut(s, i, n) <==> k < i || k >= i + n)
  {
    var t := Cut(s, i, n);
    assert forall m :: 0 <= m < |t| ==> t[m] == if m < i then s[m] else s[m + n];
    forall k | 0 <= k < |s|
      ensures s[k] in t <==> k < i || k >= i + n
    {
      if k < i {
        assert t[k] == s[k];
      } else if k >= i + n {
        assert t[k - n] == s[k];
      }
    }
  }

  // The places of a run are those whose page lies in it.
  lemma RunPlaces(s: seq<nat>, i: nat, n: nat, k: nat)
    requires FreeList(s) && n > 0 && RunAt(s, i, n) && k < |s|
    ensures s[k] in RunOf(s[i], n) <==> i <= k < i + n
  {
    assert s[i + n - 1] == s[i] + (n - 1) * PAGE;
    if k >= i + n {
      AlignedStep(s[i + n - 1], s[k]);
    }
  }

  lemma CutRun(s: seq<nat>, i: nat, n: nat)
    requires FreeList(s) && n > 0 && RunAt(s, i, n)
    ensures FreeList(Cut(s, i, n)) && Pages(Cut(s, i, n)) == Pages(s) - RunOf(s[i], n)
  {
    hide RunOf;
    CutIsFreeList(s, i, n);
    var t := Cut(s, i, n);
    forall p | p in s
      ensures p in t <==> p !in RunOf(s[i], n)
    {
      var k :| 0 <= k < |s| && s[k] == p;
      RunPlaces(s, i, n, k);
    }
    assert forall m :: 0 <= m < |t| ==> t[m] in s;
  }

  // Where p belongs in the list.
  function LowerBound(s: seq<nat>, p: nat): (r: nat)
    ensures r <= |s| && (forall k :: 0 <= k < r ==> s[k] < p) && (r < |s| ==> s[r] >= p)
  {
    if s == [] || s[0] >= p then 0 else 1 + LowerBound(s[1..], p)
  }

  function Insert(s: seq<nat>, p: nat): seq<nat> {
    s[..LowerBound(s, p)] + [p] + s[LowerBound(s, p)..]
  }

  lemma InsertAt(s: seq<nat>, p: nat, i: nat)
    requires i <= |s|
    ensures Insert(s, p)[i] == var r := LowerBound(s, p); if i < r then s[i] else if i == r then p else s[i - 1]
  {
  }

  lemma InsertPair(s: seq<nat>, p: nat, i: nat, j: nat)
    requires FreeList(s) && p !in s && i <= j <= |s| && |Insert(s, p)| == |s| + 1
    ensures i < j ==> Insert(s, p)[i] < Insert(s, p)[j]
    ensures Insert(s, p)[i] == p || Insert(s, p)[i] in s
  {
    hide Insert;
    var r := LowerBound(s, p);
    InsertAt(s, p, i);
    InsertAt(s, p, j);
    assert r < |s| ==> s[r] in s;
    assert i < r ==> s[i] in s;
    assert i > r ==> s[i - 1] in s;
  }

  lemma InsertOrder(s: seq<nat>, p: nat)
    requires FreeList(s) && p > 0 && p % PAGE == 0 && p !in s
    ensures FreeList(Insert(s, p))
  {
    hide Insert;
    InsertLength(s, p);
    forall i, j | 0 <= i <= j <= |s|
      ensures i < j ==> Insert(s, p)[i] < Insert(s, p)[j]
      ensures Insert(s, p)[i] == p || Insert(s, p)[i] in s
    {
      InsertPair(s, p, i, j);
    }
  }

  lemma InsertLength(s: seq<nat>, p: nat)
    ensures |Insert(s, p)| == |s| + 1
    ensures forall x :: x in Insert(s, p) <==> x in s || x == p
  {
    assert s == s[..LowerBound(s, p)] + s[LowerBound(s, p)..];
  }

  lemma InsertNew(s: seq<nat>, p: nat)
    requires FreeList(s) && p > 0 && p % PAGE == 0 && p !in s
    ensures FreeList(Insert(s, p)) && Pages(Insert(s, p)) == Pages(s) + {p} && |Insert(s, p)| == |s| + 1
  {
    hide Insert, FreeList;
    InsertOrder(s, p);
    InsertLength(s, p);
  }

  lemma {:induction false} PagesCount(s: seq<nat>)
    requires FreeList(s)
    ensures |Pages(s)| == |s|
  {
    if s != [] {
      var n := |s| - 1;
      PagesCount(s[..n]);
      assert Pages(s) == Pages(s[..n]) + {s[n]};
    }
  }
}
