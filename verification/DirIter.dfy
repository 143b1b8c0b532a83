/** The resumable directory iterator of the driver, against the flat list of live entries. */
module DirIter {
  import opened Bytes
  import opened Names83
  import opened FatVolume
  import opened FatTree
  import opened FatMount

  // The slots from position n of sector secs[0] on.
  function Ahead(secs: seq<Sector>, n: nat): seq<Slot>
    requires n <= 16 && (n > 0 ==> secs != [])
  {
    Slots(secs)[n..]
  }

  lemma AheadStep(secs: seq<Sector>, n: nat)
    requires n < 16 && secs != []
    ensures Ahead(secs, n) == [SlotOf(secs[0], n)] + Ahead(secs, n + 1)
  {
    assert Slots(secs)[n] == SlotOf(secs[0], n);
  }

  lemma AheadNextSector(secs: seq<Sector>)
    requires secs != []
    ensures Ahead(secs, 16) == Ahead(secs[1..], 0)
  {
    forall k | 0 <= k < |secs| * 16 - 16
      ensures Slots(secs)[16 + k] == Slots(secs[1..])[k]
    {
      assert (16 + k) / 16 == 1 + k / 16 && (16 + k) % 16 == k % 16;
    }
  }

  lemma SectorOf(k: nat, n: nat, pos: nat)
    requires n <= 16 && pos == k * 16 + n
    ensures pos / 16 == if n == 16 then k + 1 else k
  {
  }

  lemma HeadIsCluster(v: Volume, cs: seq<u16>)
    requires Shaped(v) && IsChain(v, cs)
    ensures |cs| > 0 && Clus(v, cs[0])
  {
  }

  // Passing one slot.
  lemma PassSlot(slot: Slot, rest: seq<Slot>)
    ensures slot[0] == 0 ==> LiveEntries([slot] + rest) == []
    ensures slot[0] != 0 ==>
      LiveEntries([slot] + rest) == (if IsLive(slot) then [EntryOf(slot)] else []) + LiveEntries(rest)
    ensures IsLive(slot) ==> slot[0] != 0
  {
    assert ([slot] + rest)[1..] == rest;
  }

  // The next entry stands in one of the slots ahead.
  lemma FirstIsShown(slots: seq<Slot>, e: Entry, rest: seq<Slot>)
    requires LiveEntries(slots) == [e] + LiveEntries(rest)
    ensures exists i: nat :: ShownAt(slots, i, e)
  {
    ListedExactly(slots, e);
  }

  lemma NoSlotsLive()
    ensures LiveEntries([]) == []
  {
  }

  // A C buffer holds a text and its NUL.
  ghost predicate HoldsText(buf: seq<byte>, text: seq<byte>) {
    |text| < |buf| && buf[..|text|] == text && buf[|text|] == 0
  }

  lemma SplitFirst(cluster: seq<Sector>, n: nat, more: seq<Sector>)
    requires n < |cluster|
    ensures (cluster[n..] + more)[1..] == cluster[n + 1..] + more
  {
  }

  lemma ChainGoesOn(v: Volume, cs: seq<u16>)
    requires Shaped(v) && IsChain(v, cs)
    ensures |cs| > 0
    ensures |cs| == 1 ==> IsEoc(Next(v, cs[0])) && Secs(v.data, cs[1..]) == []
    ensures |cs| > 1 ==> IsChain(v, cs[1..]) && cs[1] == Next(v, cs[0]) && Clus(v, cs[1]) && !IsEoc(cs[1])
                         && Secs(v.data, cs[1..]) == v.data[cs[1] - 2][0..] + Secs(v.data, cs[1..][1..])
  {
    if |cs| > 1 {
      assert Clus(v, cs[1]);
      assert v.data[cs[1] - 2][0..] == v.data[cs[1] - 2];
    }
  }

  /** What `find_in_dir` and the listings get to see of an entry. */
  datatype Item = Item(attr: byte, clus: u16, size: u32)

  class FatDirIter {
    const fs: Fat16
    const inRoot: bool
    var done: bool
    var rootEntriesLeft: nat
    var curClus: u16
    var secInClus: nat
    var curLba: nat
    var entIdx: nat
    var secbuf: Sector

    // The volume being read; the chain from curClus on; the sectors from the current one on.
    ghost const view: Volume
    ghost var chain: seq<u16>
    ghost var secs: seq<Sector>

    ghost predicate Valid()
      reads this, fs.disk
    {
      && fs.Mounted() && fs.View() == view && Shaped(view)
      && entIdx <= 16 && (entIdx > 0 ==> secs != [])
      && (!done ==> (curLba == NO_LBA ==> entIdx == 0) && if inRoot then InRoot() else InChain())
    }

    ghost predicate InRoot()
      requires Laid(fs.geo, fs.disk.sectors)
      reads this, fs.disk
    {
      && |secs| <= |view.root| && secs == view.root[|view.root| - |secs|..]
      && (|view.root| - |secs|) * 16 + entIdx + rootEntriesLeft == fs.geo.rootEnt
      && (curLba != NO_LBA ==>
            secs != [] && curLba == fs.geo.rootLba + (|view.root| - |secs|) && secbuf == secs[0])
    }

    ghost predicate InChain()
      requires Laid(fs.geo, fs.disk.sectors) && Shaped(view)
      reads this, fs.disk
    {
      if curClus < 2 || IsEoc(curClus) then secs == []
      else
        && IsChain(view, chain) && chain[0] == curClus && secInClus < |view.data[curClus - 2]|
        && secs == view.data[curClus - 2][secInClus..] + Secs(view.data, chain[1..])
        && (curLba != NO_LBA ==> curLba == DataSec(fs.geo, curClus, secInClus) && secbuf == secs[0])
    }

    /** The slots this iterator has not visited yet. */
    ghost function Rest(): seq<Slot>
      requires entIdx <= 16 && (entIdx > 0 ==> secs != [])
      reads this
    {
      Ahead(secs, entIdx)
    }

    /** `dir_iter_begin_root` */
    constructor Root(f: Fat16)
      requires f.Mounted()
      ensures Valid() && !done && fs == f && view == f.View()
      ensures Rest() == Slots(view.root)
    {
      fs := f;
      inRoot := true;
      done := false;
      rootEntriesLeft := f.geo.rootEnt;
      curClus, secInClus := 0, 0;
      curLba, entIdx := NO_LBA, 0;
      secbuf := ZeroSector();
      view := f.View();
      chain := [];
      secs := f.View().root;
      new;
      ViewIsShaped(fs.geo, fs.disk.sectors);
    }

    /** `dir_iter_begin_clus` */
    constructor Sub(f: Fat16, first: u16, ghost cs: seq<u16>)
      requires f.Mounted()
      requires first < 2 || IsEoc(first) || (Shaped(f.View()) && IsChain(f.View(), cs) && cs[0] == first)
      ensures Valid() && !done && fs == f && view == f.View()
      ensures Rest() == if first < 2 || IsEoc(first) then [] else Slots(Secs(view.data, cs))
    {
      fs := f;
      inRoot := false;
      done := false;
      rootEntriesLeft := 0;
      curClus, secInClus := first, 0;
      curLba, entIdx := NO_LBA, 0;
      secbuf := ZeroSector();
      view := f.View();
      chain := cs;
      secs := if first < 2 || IsEoc(first) then [] else Secs(f.View().data, cs);
      new;
      ViewIsShaped(fs.geo, fs.disk.sectors);
      if !(first < 2 || IsEoc(first)) {
        assert Clus(view, cs[0]);
        assert view.data[curClus - 2][0..] == view.data[curClus - 2];
      }
    }

    // The address the code computes for the sector of the next slot.
    ghost predicate IsNext(lba: nat)
      requires Valid() && !done
      reads this, fs.disk
    {
      && secs != []
      && if inRoot then
           rootEntriesLeft > 0 && lba == fs.geo.rootLba + (fs.geo.rootEnt - rootEntriesLeft) / 16
         else !(curClus < 2 || IsEoc(curClus)) && lba == DataSec(fs.geo, curClus, secInClus)
    }

    // Where the next slot lies, and what the medium holds there.
    lemma NextSector(lba: nat)
      requires Valid() && !done && IsNext(lba)
      ensures lba < |fs.disk.sectors| < NO_LBA
      ensures curLba != lba && entIdx == 16 ==> |secs| > 1 && inRoot
      ensures curLba != lba && entIdx < 16 ==> entIdx == 0
      ensures curLba != lba ==> fs.disk.sectors[lba] == secs[if entIdx == 16 then 1 else 0]
      ensures curLba == lba && inRoot ==> entIdx < 16
      ensures inRoot && curLba != lba ==> lba == fs.geo.rootLba + (|view.root| - |secs| + if entIdx == 16 then 1 else 0)
    {
      hide Slots, Secs, IsChain, LiveEntries, Next, ViewOf, Ahead, EvenClusters;
      if inRoot {
        SectorOf(|view.root| - |secs|, entIdx, fs.geo.rootEnt - rootEntriesLeft);
        RootSectorIs(fs.geo, fs.disk.sectors, (fs.geo.rootEnt - rootEntriesLeft) / 16);
      } else {
        HeadIsCluster(view, chain);
        ViewIsShaped(fs.geo, fs.disk.sectors);
        DataSectorIs(fs.geo, fs.disk.sectors, curClus, secInClus);
      }
    }

    // `iter_load_sector`, at the sector the next slot lies in.
    method LoadSector(lba: nat) returns (rc: int)
      requires Valid() && !done && IsNext(lba)
      modifies this`curLba, this`entIdx, this`secbuf, this`secs, fs.disk`readFaults
      ensures Valid() && rc <= 0 && Rest() == old(Rest()) && fs.disk.readFaults >= old(fs.disk.readFaults)
      ensures rc != 0 ==> fs.disk.readFaults > old(fs.disk.readFaults)
      ensures rc == 0 ==> secs != [] && secbuf == secs[0] && curLba == lba != NO_LBA && |secs| <= old(|secs|)
      ensures rc == 0 && entIdx == 16 ==> !inRoot
    {
      hide Slots, Secs, IsChain, LiveEntries, Next, ViewOf, Ahead, EvenClusters;
      NextSector(lba);
      if curLba == lba {
        return 0;
      }
      var rc0, buf := fs.disk.Read(lba);
      if rc0 != 0 {
        return rc0;
      }
      if inRoot && entIdx == 16 {
        AheadNextSector(secs);
        secs := secs[1..];
      }
      secbuf := buf;
      curLba := lba;
      entIdx := 0;
      return 0;
    }

    // The inner loop: the rest of the sector in hand, up to a live entry or the end mark.
    method ScanSector() returns (found: bool, ended: bool, e: Entry)
      requires Valid() && !done && secs != [] && curLba != NO_LBA && secbuf == secs[0]
      modifies this`entIdx, this`rootEntriesLeft
      ensures Valid()
      ensures found ==> !ended && LiveEntries(old(Rest())) == [e] + LiveEntries(Rest())
      ensures ended ==> LiveEntries(old(Rest())) == []
      ensures !found && !ended ==> entIdx == 16 && LiveEntries(old(Rest())) == LiveEntries(Rest())
    {
      hide Slots, Secs, IsChain, LiveEntries, Next, ViewOf, EvenClusters, EntryOf, IsLive;
      found, ended := false, false;
      e := Entry(Pad([], 11), 0, 0, 0);
      while entIdx < 16
        invariant Valid() && secs == old(secs)
        invariant LiveEntries(old(Rest())) == LiveEntries(Rest())
        decreases 16 - entIdx
      {
        ghost var rest := Rest();
        var slot := SlotOf(secbuf, entIdx);
        AheadStep(secs, entIdx);
        entIdx := entIdx + 1;
        if inRoot && rootEntriesLeft > 0 {
          rootEntriesLeft := rootEntriesLeft - 1;
        }
        assert rest == [slot] + Rest();
        PassSlot(slot, Rest());
        if slot[0] == 0 {
          return false, true, e;
        }
        if IsLive(slot) {
          return true, false, EntryOf(slot);
        }
      }
    }

    // The end of the outer loop: on to the next sector, following the chain.
    method Advance() returns (rc: int)
      requires Valid() && !done && secs != [] && entIdx == 16 && curLba != NO_LBA
      modifies this`curLba, this`entIdx, this`secs, this`chain, this`curClus, this`secInClus, this`done
      modifies fs.disk`readFaults
      ensures fs.disk.readFaults >= old(fs.disk.readFaults)
      ensures rc == 0 ==> Valid() && Rest() == old(Rest()) && |secs| < old(|secs|) && done == old(done)
      ensures rc == 1 ==> Valid() && done && old(Rest()) == []
      ensures rc == 0 || rc == 1 || (rc < 0 && fs.disk.readFaults > old(fs.disk.readFaults))
    {
      hide LiveEntries, ViewOf, EvenClusters, EntryOf, Slots;
      AheadNextSector(secs);
      if inRoot {
        curLba, entIdx, secs := NO_LBA, 0, secs[1..];
        return 0;
      }
      rc := AdvanceInChain();
    }

    method AdvanceInChain() returns (rc: int)
      requires Valid() && !done && secs != [] && entIdx == 16 && curLba != NO_LBA && !inRoot
      modifies this`curLba, this`entIdx, this`secs, this`chain, this`curClus, this`secInClus, this`done
      modifies fs.disk`readFaults
      ensures fs.disk.readFaults >= old(fs.disk.readFaults)
      ensures rc == 0 ==> Valid() && !done && entIdx == 0 && old(secs) != [] && secs == old(secs)[1..]
      ensures rc == 1 ==> Valid() && done && |old(secs)| == 1
      ensures rc == 0 || rc == 1 || (rc < 0 && fs.disk.readFaults > old(fs.disk.readFaults))
    {
      hide LiveEntries, ViewOf, EvenClusters, EntryOf, Slots, IsChain, Next, Secs, Laid;
      ViewIsShaped(fs.geo, fs.disk.sectors);
      HeadIsCluster(view, chain);
      ChainGoesOn(view, chain);
      SplitFirst(view.data[curClus - 2], secInClus, Secs(view.data, chain[1..]));
      secInClus := secInClus + 1;
      if secInClus >= fs.geo.spc {
        secInClus := 0;
        var rc2, nxt := fs.NextClus(curClus);
        if rc2 != 0 {
          return -20;
        }
        if IsEoc(nxt) {
          done := true;
          return 1;
        }
        if nxt < 2 {
          return -21;
        }
        curClus := nxt;
        chain := chain[1..];
      }
      curLba, entIdx, secs := NO_LBA, 0, secs[1..];
      return 0;
    }

    /**
     `fat16_dir_iter_next`: the next live entry of what is left, and never anything else.
     A negative result other than -1 means that a sector could not be read.
     */
    method GetNext(name83: array<byte>) returns (rc: int, item: Item, ghost e: Entry)
      requires Valid() && name83.Length == 13
      modifies this`curLba, this`entIdx, this`secs, this`chain, this`curClus, this`secInClus, this`done
      modifies this`secbuf, this`rootEntriesLeft, fs.disk`readFaults, name83
      ensures fs.disk.readFaults >= old(fs.disk.readFaults)
      ensures old(done) ==> rc == -1
      ensures !old(done) && rc == 0 ==>
        Valid() && !done && LiveEntries(old(Rest())) == [e] + LiveEntries(Rest())
        && item == Item(e.attr, e.clus, e.size) && HoldsText(name83[..], Decode(e.name))
        && exists i: nat :: ShownAt(old(Rest()), i, e)
      ensures !old(done) && rc == 1 ==> Valid() && done && LiveEntries(old(Rest())) == []
      ensures !old(done) && rc != 0 && rc != 1 ==> rc < 0 && fs.disk.readFaults > old(fs.disk.readFaults)
    {
      hide LiveEntries, ViewOf, EvenClusters, EntryOf, Slots, IsChain, Next, Secs, Laid, Decode, IsNext, InRoot,
           InChain;
      item, e := Item(0, 0, 0), Entry(Pad([], 11), 0, 0, 0);
      if done {
        return -1, item, e;
      }
      ghost var faults := fs.disk.readFaults;
      while true
        invariant Valid() && !done && fs.disk.readFaults >= faults
        invariant LiveEntries(Rest()) == LiveEntries(old(Rest()))
        decreases |secs|
      {
        var more, lba := NextLba();
        if !more {
          done := true;
          return 1, item, e;
        }
        rc := LoadSector(lba);
        if rc != 0 {
          return rc, item, e;
        }
        var found, ended, hit := ScanSector();
        if ended {
          done := true;
          return 1, item, e;
        }
        if found {
          Name11ToName83(hit.name, name83);
          FirstIsShown(old(Rest()), hit, Rest());
          return 0, Item(hit.attr, hit.clus, hit.size), hit;
        }
        rc := Advance();
        if rc != 0 {
          NoSlotsLive();
          return rc, item, e;
        }
      }
    }

    // Whether anything can be left, and the sector of the next slot.
    method NextLba() returns (more: bool, lba: nat)
      requires Valid() && !done
      ensures more ==> IsNext(lba)
      ensures !more ==> LiveEntries(Rest()) == []
    {
      hide ViewOf, EvenClusters, EntryOf, Slots, IsChain, Next, Secs, Laid, LiveEntries;
      if inRoot {
        if rootEntriesLeft == 0 {
          NothingLeft();
          return false, 0;
        }
        MoreLeft();
        return true, fs.geo.rootLba + (fs.geo.rootEnt - rootEntriesLeft) / 16;
      }
      if curClus < 2 || IsEoc(curClus) {
        NothingLeft();
        return false, 0;
      }
      MoreLeft();
      return true, DataSec(fs.geo, curClus, secInClus);
    }

    lemma NothingLeft()
      requires Valid() && !done
      requires if inRoot then rootEntriesLeft == 0 else curClus < 2 || IsEoc(curClus)
      ensures LiveEntries(Rest()) == []
    {
    }

    lemma MoreLeft()
      requires Valid() && !done
      requires if inRoot then rootEntriesLeft > 0 else !(curClus < 2 || IsEoc(curClus))
      ensures secs != []
    {
    }
  }
}
