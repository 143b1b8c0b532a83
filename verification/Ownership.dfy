/** Who owns which page: the ledger behind the page allocator and the kernel heap. */
module Ownership {
  import opened PageList

  const HDR := 32

  /**
   The pages collected at start, and what each is used for: handed out directly, backing
   small blocks, or part of a page-backed block (`bigs`: first page and number of pages).
   Everything else is idle. `smalls` holds the small blocks: start and size in bytes.
   */
  datatype Ledger = Ledger(all: set<nat>, direct: set<nat>, bump: set<nat>, bigs: map<nat, nat>, smalls: map<nat, nat>)

  ghost function RunOfBig(l: Ledger, b: nat): set<nat>
    requires b in l.bigs
  {
    RunOf(b, l.bigs[b])
  }

  ghost predicate InBig(l: Ledger, p: nat) {
    exists b :: b in l.bigs && p in RunOfBig(l, b)
  }

  // The pages nobody uses.
  ghost function Idle(l: Ledger): set<nat> {
    set p | p in l.all && p !in l.direct && p !in l.bump && !InBig(l, p)
  }

  ghost predicate BigFits(l: Ledger, b: nat)
    requires b in l.bigs
  {
    b > 0 && b % PAGE == 0 && l.bigs[b] > 0
    && RunOfBig(l, b) <= l.all && RunOfBig(l, b) !! l.direct && RunOfBig(l, b) !! l.bump
  }

  // A block of n pages could be placed at b.
  ghost predicate IdleRun(l: Ledger, b: nat, n: nat) {
    b > 0 && b % PAGE == 0 && n > 0 && RunOf(b, n) <= Idle(l)
  }

  // The uses do not overlap.
  ghost predicate Partitioned(l: Ledger) {
    && (forall p :: p in l.all ==> p > 0 && p % PAGE == 0)
    && l.direct <= l.all && l.bump <= l.all && l.direct !! l.bump
    && (forall b :: b in l.bigs ==> BigFits(l, b))
    && (forall a, b :: a in l.bigs && b in l.bigs && a != b ==> RunOfBig(l, a) !! RunOfBig(l, b))
  }

  /** Every page has exactly one use. */
  lemma OneUse(l: Ledger, p: nat)
    requires Partitioned(l) && p in l.all
    ensures p in Idle(l) <==> p !in l.direct && p !in l.bump && !InBig(l, p)
    ensures p in l.direct ==> p !in l.bump && !InBig(l, p)
    ensures p in l.bump ==> !InBig(l, p)
    ensures forall a, b ::
      a in l.bigs && b in l.bigs && p in RunOfBig(l, a) && p in RunOfBig(l, b) ==> a == b
  {
    if InBig(l, p) {
      var b :| b in l.bigs && p in RunOfBig(l, b);
      assert BigFits(l, b);
    }
  }

  ghost function TakeBig(l: Ledger, b: nat, n: nat): Ledger { l.(bigs := l.bigs[b := n]) }

  ghost function GiveBig(l: Ledger, b: nat): Ledger { l.(bigs := l.bigs - {b}) }

  lemma FirstOfRun(b: nat, n: nat)
    requires b % PAGE == 0 && n > 0
    ensures b in RunOf(b, n)
  {
  }

  lemma BigHoldsItself(l: Ledger, b: nat)
    requires Partitioned(l)
    ensures b in l.bigs ==> InBig(l, b)
  {
    hide RunOf;
    if b in l.bigs {
      assert BigFits(l, b);
      FirstOfRun(b, l.bigs[b]);
      assert b in RunOfBig(l, b);
    }
  }

  lemma IdleIsFreeOfBigs(l: Ledger, b: nat, n: nat)
    requires Partitioned(l) && b > 0 && b % PAGE == 0 && n > 0 && RunOf(b, n) <= Idle(l)
    ensures b !in l.bigs
    ensures forall a :: a in l.bigs ==> RunOfBig(l, a) !! RunOf(b, n)
  {
    hide RunOf;
    FirstOfRun(b, n);
    assert b in l.bigs ==> InBig(l, b) by { BigHoldsItself(l, b); }
    forall a | a in l.bigs
      ensures RunOfBig(l, a) !! RunOf(b, n)
    {
      forall p | p in RunOfBig(l, a)
        ensures p !in RunOf(b, n)
      {
      }
    }
  }

  /** An idle run becomes a page-backed block. */
  lemma TakeBigKeeps(l: Ledger, b: nat, n: nat)
    requires Partitioned(l) && b > 0 && b % PAGE == 0 && n > 0 && RunOf(b, n) <= Idle(l)
    ensures b !in l.bigs
    ensures Partitioned(TakeBig(l, b, n)) && Idle(TakeBig(l, b, n)) == Idle(l) - RunOf(b, n)
  {
    hide RunOf;
    IdleIsFreeOfBigs(l, b, n);
    var t := TakeBig(l, b, n);
    assert RunOfBig(t, b) == RunOf(b, n);
    forall a | a in l.bigs
      ensures RunOfBig(t, a) == RunOfBig(l, a) && BigFits(t, a)
    {
      assert BigFits(l, a);
    }
    forall p
      ensures InBig(t, p) <==> InBig(l, p) || p in RunOf(b, n)
    {
      if InBig(t, p) {
        var a :| a in t.bigs && p in RunOfBig(t, a);
        assert a != b ==> a in l.bigs;
      }
      if InBig(l, p) {
        var a :| a in l.bigs && p in RunOfBig(l, a);
        assert a in t.bigs && p in RunOfBig(t, a);
      }
      if p in RunOf(b, n) {
        assert b in t.bigs && p in RunOfBig(t, b);
      }
    }
  }

  /** A page-backed block goes back: its run is idle again. */
  lemma GiveBigKeeps(l: Ledger, b: nat)
    requires Partitioned(l) && b in l.bigs
    ensures Partitioned(GiveBig(l, b)) && Idle(GiveBig(l, b)) == Idle(l) + RunOfBig(l, b)
    ensures Idle(l) !! RunOfBig(l, b)
  {
    hide RunOf;
    var t := GiveBig(l, b);
    forall a | a in t.bigs
      ensures RunOfBig(t, a) == RunOfBig(l, a) && BigFits(t, a)
    {
      assert BigFits(l, a);
    }
    assert BigFits(l, b);
    forall p
      ensures InBig(l, p) <==> InBig(t, p) || p in RunOfBig(l, b)
    {
      if InBig(l, p) {
        var a :| a in l.bigs && p in RunOfBig(l, a);
        assert a != b ==> a in t.bigs && p in RunOfBig(t, a);
      }
      if InBig(t, p) {
        var a :| a in t.bigs && p in RunOfBig(t, a);
        assert a in l.bigs && p in RunOfBig(l, a);
      }
    }
    forall p | InBig(t, p)
      ensures p !in RunOfBig(l, b)
    {
      var a :| a in t.bigs && p in RunOfBig(t, a);
      assert RunOfBig(l, a) !! RunOfBig(l, b);
    }
  }

  // A block taken and given back leaves no trace.
  lemma TakenBack(l: Ledger, b: nat, n: nat)
    requires b !in l.bigs
    ensures GiveBig(TakeBig(l, b, n), b) == l
  {
    assert l.bigs[b := n] - {b} == l.bigs;
  }

  ghost function TakeDirect(l: Ledger, r: set<nat>): Ledger { l.(direct := l.direct + r) }

  ghost function GiveDirect(l: Ledger, r: set<nat>): Ledger { l.(direct := l.direct - r) }

  ghost function TakeBump(l: Ledger, p: nat): Ledger { l.(bump := l.bump + {p}) }

  // Only `direct` and `bump` differ.
  lemma SameBigs(l: Ledger, t: Ledger, p: nat)
    requires t.bigs == l.bigs
    ensures InBig(t, p) <==> InBig(l, p)
  {
    forall b | b in l.bigs
      ensures RunOfBig(t, b) == RunOfBig(l, b)
    {
    }
    if InBig(l, p) {
      var b :| b in l.bigs && p in RunOfBig(l, b);
      assert b in t.bigs && p in RunOfBig(t, b);
    }
  }

  lemma BigsMiss(l: Ledger, t: Ledger)
    requires Partitioned(l) && t.bigs == l.bigs && t.all == l.all
    requires t.direct + t.bump <= l.direct + l.bump + Idle(l)
    ensures forall b :: b in l.bigs ==> RunOfBig(t, b) == RunOfBig(l, b) && BigFits(t, b)
  {
    hide RunOf;
    forall b | b in l.bigs
      ensures RunOfBig(t, b) == RunOfBig(l, b) && BigFits(t, b)
    {
      assert BigFits(l, b);
      assert forall p :: p in RunOfBig(l, b) ==> InBig(l, p);
    }
  }

  lemma TakeDirectKeeps(l: Ledger, r: set<nat>)
    requires Partitioned(l) && r <= Idle(l)
    ensures Partitioned(TakeDirect(l, r)) && Idle(TakeDirect(l, r)) == Idle(l) - r
  {
    hide InBig, BigFits, RunOf;
    var t := TakeDirect(l, r);
    BigsMiss(l, t);
    forall p { SameBigs(l, t, p); }
  }

  lemma GiveDirectKeeps(l: Ledger, r: set<nat>)
    requires Partitioned(l) && r <= l.direct
    ensures Partitioned(GiveDirect(l, r)) && Idle(GiveDirect(l, r)) == Idle(l) + r && Idle(l) !! r
  {
    hide InBig, BigFits, RunOf;
    var t := GiveDirect(l, r);
    BigsMiss(l, t);
    forall p
      ensures InBig(t, p) <==> InBig(l, p)
      ensures p in r ==> !InBig(l, p) && p in l.all && p !in l.bump
    {
      SameBigs(l, t, p);
      if p in r { OneUse(l, p); }
    }
  }

  lemma TakeBumpKeeps(l: Ledger, p: nat)
    requires Partitioned(l) && p in Idle(l)
    ensures Partitioned(TakeBump(l, p)) && Idle(TakeBump(l, p)) == Idle(l) - {p}
  {
    hide InBig, BigFits, RunOf;
    var t := TakeBump(l, p);
    BigsMiss(l, t);
    forall q { SameBigs(l, t, q); }
  }

  // ----- blocks -----

  datatype Block = Block(start: nat, size: nat)

  ghost predicate IsSmall(l: Ledger, k: Block) {
    k.start in l.smalls && k.size == l.smalls[k.start]
  }

  ghost predicate IsBig(l: Ledger, k: Block) {
    k.start >= HDR && k.start - HDR in l.bigs && k.size == l.bigs[k.start - HDR] * PAGE - HDR
  }

  ghost predicate Live(l: Ledger, k: Block) {
    IsSmall(l, k) || IsBig(l, k)
  }

  // A small block lies in one page that backs small blocks.
  ghost predicate SmallFits(l: Ledger, a: nat)
    requires a in l.smalls
  {
    a % 16 == 0 && l.smalls[a] > 0 && AlignDown(a) in l.bump && a + l.smalls[a] <= AlignDown(a) + PAGE
  }

  ghost predicate SmallsApart(l: Ledger) {
    && (forall a :: a in l.smalls ==> SmallFits(l, a))
    && (forall a, b :: a in l.smalls && b in l.smalls && a < b ==> a + l.smalls[a] <= b)
  }

  // Every page the block touches.
  ghost predicate Touches(k: Block, p: nat) {
    p % PAGE == 0 && p < k.start + k.size && k.start < p + PAGE
  }

  lemma BigPlace(l: Ledger, k: Block)
    requires Partitioned(l) && IsBig(l, k)
    ensures k.size > 0 && k.start % 16 == 0
    ensures forall p :: Touches(k, p) ==> p in RunOfBig(l, k.start - HDR)
  {
    assert BigFits(l, k.start - HDR);
  }

  lemma SmallPlace(l: Ledger, k: Block)
    requires SmallsApart(l) && IsSmall(l, k)
    ensures k.size > 0 && k.start % 16 == 0
    ensures forall p :: Touches(k, p) ==> p in l.bump
  {
    assert SmallFits(l, k.start);
    var q := AlignDown(k.start);
    forall p | Touches(k, p)
      ensures p == q
    {
      if p < q { AlignedStep(p, q); }
      if p > q { AlignedStep(q, p); }
    }
  }

  ghost predicate Disjoint(j: Block, k: Block) {
    j.start + j.size <= k.start || k.start + k.size <= j.start
  }

  // Blocks that touch no common page are disjoint.
  lemma ApartByPages(j: Block, k: Block)
    requires forall p :: Touches(j, p) ==> !Touches(k, p)
    requires j.size > 0 && k.size > 0
    ensures Disjoint(j, k)
  {
    if !Disjoint(j, k) {
      var m := if j.start < k.start then k.start else j.start;
      assert Touches(j, AlignDown(m)) && Touches(k, AlignDown(m));
    }
  }

  lemma InUse(l: Ledger, k: Block, p: nat)
    requires Partitioned(l) && SmallsApart(l) && Live(l, k) && Touches(k, p)
    ensures p in l.all && p !in Idle(l) && p !in l.direct
    ensures IsSmall(l, k) ==> p in l.bump
    ensures IsBig(l, k) ==> p in RunOfBig(l, k.start - HDR) && InBig(l, p)
  {
    hide RunOf, RunOfBig, Touches;
    if IsSmall(l, k) { SmallPlace(l, k); }
    if IsBig(l, k) {
      BigPlace(l, k);
      assert BigFits(l, k.start - HDR);
    }
    OneUse(l, p);
  }

  /** Live blocks are 16-byte aligned, inside pages in use, and pairwise disjoint. */
  lemma BlocksApart(l: Ledger, j: Block, k: Block)
    requires Partitioned(l) && SmallsApart(l) && Live(l, j) && Live(l, k)
    ensures j.start % 16 == 0 && j.size > 0
    ensures forall p :: Touches(j, p) ==> p in l.all && p !in Idle(l) && p !in l.direct
    ensures j == k || Disjoint(j, k)
  {
    hide RunOf, RunOfBig, Touches, Partitioned;
    forall b: Block | Live(l, b)
      ensures b.start % 16 == 0 && b.size > 0
      ensures forall p :: Touches(b, p) ==> p in l.all && p !in Idle(l) && p !in l.direct
    {
      if IsSmall(l, b) { SmallPlace(l, b); } else { BigPlace(l, b); }
      forall p | Touches(b, p) { InUse(l, b, p); }
    }
    if !(IsSmall(l, j) && IsSmall(l, k)) && j != k {
      forall p | Touches(j, p)
        ensures !Touches(k, p)
      {
        if Touches(k, p) {
          InUse(l, j, p);
          InUse(l, k, p);
          OneUse(l, p);
        }
      }
      ApartByPages(j, k);
    }
  }
}
