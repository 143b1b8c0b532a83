/**
 The block device below `disk_read` and `disk_write`: 512-byte sectors, one sector
 per call. Any call may fail, with a negative code; a failed write changes nothing.
 */
module Disk {
  import opened Bytes

  class Disk {
    var sectors: Image

    // Every image the medium has held, newest last. Cutting the power after some
    // sector write leaves one of these.
    ghost var trace: seq<Image>

    // How many calls have failed so far.
    var readFaults: nat
    var writeFaults: nat

    ghost predicate Valid()
      reads this
    {
      |trace| > 0 && trace[|trace| - 1] == sectors
    }

    ghost predicate NoFaultSince(reads0: nat, writes0: nat)
      reads this
    {
      readFaults == reads0 && writeFaults == writes0
    }

    method Read(lba: nat) returns (rc: int, buf: Sector)
      modifies this`readFaults
      ensures rc <= 0 && readFaults >= old(readFaults)
      ensures rc == 0 <==> readFaults == old(readFaults)
      ensures rc == 0 ==> lba < |sectors| && buf == sectors[lba]
    {
      var fault: bool := *;
      if lba < |sectors| && !fault {
        return 0, sectors[lba];
      }
      rc :| rc < 0;
      buf := ZeroSector();
      readFaults := readFaults + 1;
    }

    method Write(lba: nat, buf: Sector) returns (rc: int)
      requires Valid()
      modifies this`sectors, this`trace, this`writeFaults
      ensures Valid() && rc <= 0 && writeFaults >= old(writeFaults)
      ensures rc == 0 <==> writeFaults == old(writeFaults)
      ensures rc == 0 ==> lba < |old(sectors)| && sectors == old(sectors)[lba := buf]
                          && trace == old(trace) + [sectors]
      ensures rc != 0 ==> sectors == old(sectors) && trace == old(trace)
    {
      var fault: bool := *;
      if lba < |sectors| && !fault {
        sectors := sectors[lba := buf];
        trace := trace + [sectors];
        return 0;
      }
      rc :| rc < 0;
      writeFaults := writeFaults + 1;
    }
  }
}
