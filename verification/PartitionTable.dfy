/** The partition table in front of a device, which the FAT and the exFAT mount read in the same way. */
module PartitionTable {

  const WORD: nat := 0x1_0000_0000

  datatype PartitionEntry = PartitionEntry(kind: nat, boot: nat, relativeSectors: nat, totalSectors: nat)

  function NoPartition(): PartitionEntry {
    PartitionEntry(0, 0, 0, 0)
  }

  function U32(n: int): nat {
    n % WORD
  }

  /** A used partition with a sensible boot flag, or no partition table at all. */
  predicate Selectable(mbr: seq<PartitionEntry>, part: nat)
    requires |mbr| == 4
  {
    part == 0 || (part <= 4 && mbr[part - 1].kind != 0 && mbr[part - 1].boot in {0, 0x80})
  }

  function VolumeStart(mbr: seq<PartitionEntry>, part: nat, start: nat): nat
    requires |mbr| == 4
  {
    if 0 < part <= 4 then mbr[part - 1].relativeSectors else start
  }

  /** Where the boot sector of partition `part` lies, or with `part` 0 the given sector. */
  method Select(mbr: seq<PartitionEntry>, part: nat, start: nat) returns (ok: bool, at: nat)
    requires |mbr| == 4
    ensures ok == Selectable(mbr, part) && (ok ==> at == VolumeStart(mbr, part, start))
    ensures part == 0 ==> ok && at == start
    ensures part > 0 ==> (ok <==> part <= 4 && mbr[part - 1].kind != 0 && mbr[part - 1].boot in {0, 0x80})
    ensures part > 0 && ok ==> at == mbr[part - 1].relativeSectors
  {
    at := start;
    if part > 0 {
      if part > 4 {
        ok := false;
        return;
      }
      var entry := mbr[part - 1];
      if entry.kind == 0 || (entry.boot != 0 && entry.boot != 0x80) {
        ok := false;
        return;
      }
      at := entry.relativeSectors;
    }
    ok := true;
  }
}
